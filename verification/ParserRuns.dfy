/** Runs of the parser without the recursive functions they are defined by: which components can be extracted,
    where each header ends up, and which state follows which. */
module ParserRuns {
  import opened Sequences
  import opened Options
  import opened Memory
  import opened Deparse
  import opened Packet

  // ---------------------------------------------------------------- what components extract

  /** How many of the components extract into stack `s`. */
  function Nexts(cs: seq<Component>, s: nat): nat {
    if cs == [] then 0 else (if cs[0] == ExtractNext(s) then 1 else 0) + Nexts(cs[1..], s)
  }

  /** The header that component `i` is for: the one it names, or in a stack the one behind those that are there
      and those that components before it add. */
  function Goal(widths: seq<nat>, stacks: seq<Stack>, cs: seq<Component>, current: seq<int>, i: nat): nat
    requires Fits(widths, stacks, current) && i < |cs| && Known(widths, stacks, cs[i])
  {
    match cs[i]
    case ExtractHeader(h) => h
    case ExtractNext(s) => stacks[s].start + current[s] + 1 + Nexts(cs[..i], s)
  }

  ghost predicate EachKnown(widths: seq<nat>, stacks: seq<Stack>, cs: seq<Component>) {
    forall i | 0 <= i < |cs| :: Known(widths, stacks, cs[i])
  }

  lemma {:induction false} EachIsKnown(widths: seq<nat>, stacks: seq<Stack>, cs: seq<Component>)
    ensures AllKnown(widths, stacks, cs) <==> EachKnown(widths, stacks, cs)
  {
    hide Known;
    if cs != [] {
      EachIsKnown(widths, stacks, cs[1..]);
      if EachKnown(widths, stacks, cs[1..]) && Known(widths, stacks, cs[0]) {
        forall i | 0 <= i < |cs| ensures Known(widths, stacks, cs[i]) {
          assert i > 0 ==> cs[i] == cs[1..][i - 1];
        }
      }
    }
  }

  function Goals(widths: seq<nat>, stacks: seq<Stack>, cs: seq<Component>, current: seq<int>): (r: seq<nat>)
    requires Fits(widths, stacks, current) && EachKnown(widths, stacks, cs)
    ensures |r| == |cs|
  {
    seq(|cs|, i requires 0 <= i < |cs| => Goal(widths, stacks, cs, current, i))
  }

  /** The widths of the headers `picks`; nothing for what is no header. */
  function WidthsOf(widths: seq<nat>, picks: seq<nat>): (r: seq<nat>)
    ensures |r| == |picks|
  {
    seq(|picks|, i requires 0 <= i < |picks| => if picks[i] < |widths| then widths[picks[i]] else 0)
  }

  /** Each stack has room for all the components that extract into it. */
  ghost predicate NoOverflow(stacks: seq<Stack>, cs: seq<Component>, current: seq<int>)
    requires |current| == |stacks|
  {
    forall s: nat | s < |stacks| :: current[s] + Nexts(cs, s) < stacks[s].size
  }

  lemma {:induction false} FirstGoal(widths: seq<nat>, stacks: seq<Stack>, cs: seq<Component>, current: seq<int>)
    requires Fits(widths, stacks, current) && cs != [] && EachKnown(widths, stacks, cs)
    requires cs[0].ExtractNext? ==> current[cs[0].stk] + 1 < stacks[cs[0].stk].size
    ensures EachKnown(widths, stacks, cs[1..]) && Fits(widths, stacks, Advance(cs[0], current))
    ensures Goals(widths, stacks, cs, current)
         == [Target(stacks, cs[0], current)] + Goals(widths, stacks, cs[1..], Advance(cs[0], current))
    ensures NoOverflow(stacks, cs, current) <==> NoOverflow(stacks, cs[1..], Advance(cs[0], current))
  {
    var c, rest, next := cs[0], cs[1..], Advance(cs[0], current);
    var goals, later := Goals(widths, stacks, cs, current), Goals(widths, stacks, rest, next);
    forall s: nat | s < |stacks| ensures current[s] + Nexts(cs, s) == next[s] + Nexts(rest, s) {
    }
    forall i | 0 < i < |cs| ensures goals[i] == later[i - 1] {
      assert cs[i] == rest[i - 1];
      if cs[i].ExtractNext? {
        assert cs[..i][1..] == rest[..i - 1] && cs[..i][0] == c;
      }
    }
    assert goals[0] == Target(stacks, c, current);
  }

  lemma {:induction false} OffsetOfFirst(w: nat, ws: seq<nat>, j: nat)
    requires j <= |ws|
    ensures Offset([w] + ws, 1 + j) == w + Offset(ws, j)
  {
    assert Offset([w], 1) == Offset([w], 0) + w;
    OffsetsAdd([w], ws, j);
  }

  lemma {:induction false} WidthsFirst(widths: seq<nat>, h: nat, rest: seq<nat>)
    requires h < |widths|
    ensures WidthsOf(widths, [h] + rest) == [widths[h]] + WidthsOf(widths, rest)
  {
  }

  lemma {:induction false} OffsetOfNothing(ws: seq<nat>)
    ensures Offset(ws, 0) == 0
  {
  }

  lemma {:induction false} TargetIsHeader(widths: seq<nat>, stacks: seq<Stack>, c: Component, current: seq<int>)
    requires Fits(widths, stacks, current) && Known(widths, stacks, c)
    requires c.ExtractNext? ==> current[c.stk] + 1 < stacks[c.stk].size
    ensures 0 <= Target(stacks, c, current) < |widths|
  {
  }

  /** Components can be extracted if and only if no stack overflows and their headers, one behind the other, fit
      into what is left of the packet. Then component `i` gives the header `Goal` says, each stack has grown by
      its components, and what is left has shrunk by the widths. */
  lemma {:induction false} ResolvesExactly(widths: seq<nat>, stacks: seq<Stack>, cs: seq<Component>,
                                           current: seq<int>, room: int)
    requires Fits(widths, stacks, current) && AllKnown(widths, stacks, cs) && room >= 0
    ensures EachKnown(widths, stacks, cs)
    ensures var goals := Goals(widths, stacks, cs, current);
            var needed := Offset(WidthsOf(widths, goals), |cs|);
            var r := Resolve(widths, stacks, cs, current, room);
            && (r.Some? <==> NoOverflow(stacks, cs, current) && needed <= room)
            && (r.Some? ==> r.value.headers == goals && r.value.room == room - needed)
            && (r.Some? ==> forall s: nat | s < |stacks| :: r.value.current[s] == current[s] + Nexts(cs, s))
  {
    hide Goals, WidthsOf, Offset;
    EachIsKnown(widths, stacks, cs);
    if cs == [] {
      OffsetOfNothing(WidthsOf(widths, []));
    } else if cs[0].ExtractNext? && !(current[cs[0].stk] + 1 < stacks[cs[0].stk].size) {
      assert !NoOverflow(stacks, cs, current);
    } else {
      var h := Target(stacks, cs[0], current);
      var rest, next := cs[1..], Advance(cs[0], current);
      TargetIsHeader(widths, stacks, cs[0], current);
      FirstGoal(widths, stacks, cs, current);
      var later := Goals(widths, stacks, rest, next);
      WidthsFirst(widths, h, later);
      OffsetOfFirst(widths[h], WidthsOf(widths, later), |rest|);
      if widths[h] <= room {
        ResolvesExactly(widths, stacks, rest, next, room - widths[h]);
      }
    }
  }

  /** All components of the states on a path, in order. */
  function Components(p: Parser, path: seq<nat>): seq<Component>
    requires forall i | 0 <= i < |path| :: path[i] < |p.states|
  {
    if path == [] then []
    else
      var first := p.states[path[0]];
      (if first.State? then first.components else []) + Components(p, path[1..])
  }

  lemma {:induction false} PrefixedTwice(a: seq<nat>, b: seq<nat>, r: Option<Packet.Progress>)
    ensures Prefixed(a, Prefixed(b, r)) == Prefixed(a + b, r)
  {
    assert r.Some? ==> a + (b + r.value.headers) == a + b + r.value.headers;
  }

  lemma {:induction false} ResolveMore(widths: seq<nat>, stacks: seq<Stack>, cs: seq<Component>, ds: seq<Component>,
                                       current: seq<int>, room: int)
    requires Fits(widths, stacks, current) && AllKnown(widths, stacks, cs) && AllKnown(widths, stacks, ds)
    ensures AllKnown(widths, stacks, cs + ds)
    ensures Resolve(widths, stacks, cs + ds, current, room)
         == match Resolve(widths, stacks, cs, current, room)
            case None => None
            case Some(q) => Prefixed(q.headers, Resolve(widths, stacks, ds, q.current, q.room))
  {
    if cs == [] {
      assert cs + ds == ds;
      var r := Resolve(widths, stacks, ds, current, room);
      assert r.Some? ==> [] + r.value.headers == r.value.headers;
    } else {
      assert (cs + ds)[1..] == cs[1..] + ds;
      JoinKnown(widths, stacks, cs, ds);
      if CanExtract(widths, stacks, cs[0], current, room) {
        var h := Target(stacks, cs[0], current);
        var next, left := Advance(cs[0], current), room - widths[h];
        ResolveMore(widths, stacks, cs[1..], ds, next, left);
        var r := Resolve(widths, stacks, cs[1..], next, left);
        if r.Some? {
          PrefixedTwice([h], r.value.headers, Resolve(widths, stacks, ds, r.value.current, r.value.room));
        }
      }
    }
  }

  lemma {:induction false} JoinKnown(widths: seq<nat>, stacks: seq<Stack>, cs: seq<Component>, ds: seq<Component>)
    requires AllKnown(widths, stacks, cs) && AllKnown(widths, stacks, ds)
    ensures AllKnown(widths, stacks, cs + ds)
  {
    hide Known;
    if cs == [] {
      assert cs + ds == ds;
    } else {
      assert (cs + ds)[1..] == cs[1..] + ds;
      JoinKnown(widths, stacks, cs[1..], ds);
    }
  }

  /** What a path extracts is what all its components extract, one after the other. */
  lemma {:induction false} ExtractsAll(p: Parser, widths: seq<nat>, stacks: seq<Stack>, path: seq<nat>,
                                       current: seq<int>, room: int)
    requires p.KnowsAll(widths, stacks) && Fits(widths, stacks, current)
    requires forall i | 0 <= i < |path| :: path[i] < |p.states|
    ensures AllKnown(widths, stacks, Components(p, path))
    ensures p.Extracts(widths, stacks, path, current, room) == Resolve(widths, stacks, Components(p, path), current, room)
  {
    hide Resolve, AllKnown;
    if path == [] {
      ResolveNothing(widths, stacks, current, room);
      NothingKnown(widths, stacks);
    } else {
      var rest := Components(p, path[1..]);
      if p.states[path[0]].State? {
        var cs := p.states[path[0]].components;
        var r := Resolve(widths, stacks, cs, current, room);
        ExtractsAll(p, widths, stacks, path[1..], if r.Some? then r.value.current else current,
                    if r.Some? then r.value.room else room);
        ResolveMore(widths, stacks, cs, rest, current, room);
      } else {
        ExtractsAll(p, widths, stacks, path[1..], current, room);
        assert [] + rest == rest;
      }
    }
  }

  lemma {:induction false} NothingKnown(widths: seq<nat>, stacks: seq<Stack>)
    ensures AllKnown(widths, stacks, [])
  {
  }

  // ---------------------------------------------------------------- where the headers end up

  lemma {:induction false} SpanIsOffset(widths: seq<nat>, picks: seq<nat>)
    requires InRange(widths, picks)
    ensures Span(widths, picks) == Offset(WidthsOf(widths, picks), |picks|)
  {
    if picks != [] {
      SpanIsOffset(widths, picks[1..]);
      assert picks == [picks[0]] + picks[1..];
      WidthsFirst(widths, picks[0], picks[1..]);
      OffsetOfFirst(widths[picks[0]], WidthsOf(widths, picks[1..]), |picks| - 1);
    }
  }

  /** A header that was not extracted is as before. */
  lemma {:induction false} NotLaid(widths: seq<nat>, skipped: seq<bool>, hs: seq<HeaderDesc>, picks: seq<nat>,
                                   at: nat, h: nat)
    requires |hs| == |widths| == |skipped| && h < |hs| && h !in picks
    ensures Laid(widths, skipped, hs, picks, at)[h] == hs[h]
    decreases |picks|
  {
    if picks != [] && picks[0] < |hs| {
      var next := hs[picks[0] := Found(widths, skipped, picks[0], at)];
      NotLaid(widths, skipped, next, picks[1..], at + widths[picks[0]], h);
    }
  }

  lemma {:induction false} AddressOf(widths: seq<nat>, picks: seq<nat>, k: nat)
    requires InRange(widths, picks) && k < |picks|
    ensures Span(widths, picks[..k]) == Offset(WidthsOf(widths, picks), k)
  {
    hide Span, Offset;
    SpanIsOffset(widths, picks[..k]);
    assert WidthsOf(widths, picks) == WidthsOf(widths, picks[..k]) + WidthsOf(widths, picks[k..]);
    OffsetOfPrefix(WidthsOf(widths, picks[..k]), WidthsOf(widths, picks[k..]), k);
  }

  /** Of several extractions of a header the last one counts: it points to where the headers extracted before
      it end, or nowhere if it is skipped. */
  lemma {:induction false} LaidLast(widths: seq<nat>, skipped: seq<bool>, hs: seq<HeaderDesc>, picks: seq<nat>,
                                    at: nat, k: nat)
    requires |hs| == |widths| == |skipped| && InRange(widths, picks) && k < |picks| && picks[k] !in picks[k + 1..]
    ensures var h := picks[k];
            Laid(widths, skipped, hs, picks, at)[h]
            == HeaderDesc(if skipped[h] then Null else At(at + Offset(WidthsOf(widths, picks), k)), widths[h], !skipped[h])
  {
    hide Laid, Span, WidthsOf, Offset;
    var h, a, b := picks[k], picks[..k], picks[k + 1..];
    AddressOf(widths, picks, k);
    var before := Laid(widths, skipped, hs, a, at);
    assert picks == a + ([h] + b);
    LaidMore(widths, skipped, hs, a, [h] + b, at);
    LaidFirst(widths, skipped, before, h, b, at + Span(widths, a));
    var there := Found(widths, skipped, h, at + Span(widths, a));
    NotLaid(widths, skipped, before[h := there], b, at + Span(widths, a) + widths[h], h);
  }

  // ---------------------------------------------------------------- which state follows which

  lemma {:induction false} PathParts(path: seq<nat>, k: nat)
    requires 0 < k < |path|
    ensures path[1..][..k] == path[1..k + 1] && path[..k + 1] == [path[0]] + path[1..k + 1]
  {
  }

  /** A run goes from each state on its path to the state it names, or to the one its select expression gives
      for the headers extracted up to there. */
  lemma {:induction false} RunFollows(p: Parser, prog: Program, mem: seq<Byte>, path: seq<nat>, at: Position,
                                      o: Outcome, k: nat)
    requires prog.Accepts(at) && p.KnowsAll(prog.widths, prog.stacks) && p.Runs(prog, mem, path, at, o)
    requires k + 1 < |path|
    ensures OfStates(p, path) && p.states[path[k]].State?
    ensures var r := p.Extracts(prog.widths, prog.stacks, path[..k + 1], at.current, at.room);
            && r.Some?
            && match p.states[path[k]].next
               case Goto(u) => path[k + 1] == u
               case Select =>
                 p.select(path[k], mem, Laid(prog.widths, prog.skipped, at.headers, r.value.headers, at.ptr))
                 == Some(path[k + 1])
    decreases |path|
  {
    hide Resolve, Laid, Span;
    RunEnds(p, prog, mem, path, at, o);
    var s := path[0];
    var q := Resolve(prog.widths, prog.stacks, p.states[s].components, at.current, at.room).value;
    ExtractsOne(p, prog.widths, prog.stacks, s, at.current, at.room);
    if k == 0 {
      assert path[..1] == [s];
    } else {
      var rest := path[1..k + 1];
      PathParts(path, k);
      RunFollows(p, prog, mem, path[1..], prog.After(at, q), o, k - 1);
      ExtractsMore(p, prog.widths, prog.stacks, s, rest, at.current, at.room);
      ResolveSpan(prog.widths, prog.stacks, p.states[s].components, at.current, at.room);
      var r := p.Extracts(prog.widths, prog.stacks, rest, q.current, q.room);
      LaidMore(prog.widths, prog.skipped, at.headers, q.headers, r.value.headers, at.ptr);
    }
  }
}
