/** A loop in the parser: one-byte labels are extracted into a stack of two until one is 1, the bottom of the
    stack. What becomes of each packet, by its bytes. */
module Labels {
  import opened Sequences
  import opened Options
  import opened Memory
  import opened Deparse
  import opened Storage
  import opened Emission
  import opened Packet
  import opened ParserRuns

  /** The label extracted last is 1. */
  predicate AtBottom(mem: seq<Byte>, hs: seq<HeaderDesc>) {
    |hs| == 2 && var h := if hs[1].pointer.At? then hs[1] else hs[0];
    h.pointer.At? && h.pointer.addr < |mem| && mem[h.pointer.addr] == 1
  }

  const W: seq<nat> := [1, 1]
  const S: seq<Stack> := [Stack(0, 2)]
  const NEXT: seq<Component> := [ExtractNext(0)]

  function LabelLoop(): Parser {
    Parser([State(NEXT, Select), Accept],
           (s: nat, mem: seq<Byte>, hs: seq<HeaderDesc>) => Some(if AtBottom(mem, hs) then 1 else 0))
  }

  function TwoLabels(): Program { Program(W, [false, false], S) }

  lemma {:induction false} LoopFormed()
    ensures LabelLoop().WellFormed(W, S, [1, 0]) && AllKnown(W, S, NEXT)
  {
    assert LabelLoop().states[0] == State(NEXT, Select) && LabelLoop().states[1] == Accept;
    assert NEXT[1..] == [] && AllKnown(W, S, []);
    assert Known(W, S, ExtractNext(0)) && Consumes(W, S, ExtractNext(0));
  }

  /** One more label fits if there is a byte left and the stack is not full. */
  lemma {:induction false} OneLabel(c: int, room: int)
    requires -1 <= c < 2 && room >= 0
    ensures AllKnown(W, S, NEXT) && Fits(W, S, [c])
    ensures Resolve(W, S, NEXT, [c], room)
         == if c < 1 && room >= 1 then Some(Progress([(c + 1) as nat], [c + 1], room - 1)) else None
  {
    hide Offset, WidthsOf;
    LoopFormed();
    hide AllKnown;
    ResolvesExactly(W, S, NEXT, [c], room);
    assert NEXT[..0] == [] && NEXT[1..] == [];
    assert Nexts(NEXT, 0) == 1 && Nexts([], 0) == 0;
    var goals := Goals(W, S, NEXT, [c]);
    assert goals == [(c + 1) as nat];
    WidthOfOne(c + 1);
    var r := Resolve(W, S, NEXT, [c], room);
    if r.Some? { assert r.value.current == [c + 1]; }
  }

  lemma {:induction false} WidthOfOne(h: nat)
    ensures Offset(WidthsOf(W, [h]), 1) == if h < 2 then 1 else 0
  {
    assert Offset(WidthsOf(W, [h]), 1) == Offset(WidthsOf(W, [h]), 0) + WidthsOf(W, [h])[0];
  }

  lemma {:induction false} OneLaid(hs: seq<HeaderDesc>, h: nat, a: nat)
    requires |hs| == 2 && h < 2
    ensures Laid(W, [false, false], hs, [h], a) == hs[h := HeaderDesc(At(a), 1, true)] && Span(W, [h]) == 1
  {
    assert [h] + [] == [h];
    LaidFirst(W, [false, false], hs, h, [], a);
    LaidNothing(W, [false, false], hs[h := Found(W, [false, false], h, a)], a + 1);
  }

  /** Where the parser is after the next label. */
  function Later(at: Position): Position
    requires |at.headers| == 2 && |at.current| == 1 && 0 <= at.current[0] + 1 < 2
  {
    Position(at.headers[at.current[0] + 1 := HeaderDesc(At(at.ptr), 1, true)], [at.current[0] + 1], at.ptr + 1,
             at.room - 1)
  }

  /** One state of a run: it ends when there is no byte or no room in the stack, and goes on by what the label is. */
  lemma {:induction false} LoopStep(mem: seq<Byte>, path: seq<nat>, at: Position, o: Outcome)
    requires |at.headers| == 2 && |at.current| == 1 && -1 <= at.current[0] < 2 && at.room >= 0
    requires at.current[0] == -1 ==> at.headers[1].pointer.Null?
    requires at.ptr + at.room <= |mem|
    requires TwoLabels().Accepts(at) && LabelLoop().KnowsAll(W, S)
    requires LabelLoop().Runs(TwoLabels(), mem, path, at, o) && path[0] == 0
    ensures if at.current[0] < 1 && at.room >= 1 then
              && |path| > 1 && path[1] == (if mem[at.ptr] == 1 then 1 else 0)
              && TwoLabels().Accepts(Later(at)) && LabelLoop().Runs(TwoLabels(), mem, path[1..], Later(at), o)
            else path == [0] && o.Dropped?
  {
    hide Resolve, Laid, Span, AllKnown;
    OneLabel(at.current[0], at.room);
    assert at.current == [at.current[0]] && LabelLoop().states[0] == State(NEXT, Select);
    if at.current[0] < 1 && at.room >= 1 {
      OneLaid(at.headers, at.current[0] + 1, at.ptr);
      var q := Progress([(at.current[0] + 1) as nat], [at.current[0] + 1], at.room - 1);
      assert TwoLabels().After(at, q) == Later(at);
      assert AtBottom(mem, Later(at).headers) <==> mem[at.ptr] == 1;
    }
  }

  /** How a packet of `room` bytes from `a` on ends. */
  predicate Fate(mem: seq<Byte>, a: nat, room: nat, path: seq<nat>, o: Outcome)
    requires a + room <= |mem|
  {
    if room == 0 then path == [0] && o.Dropped?
    else if mem[a] == 1 then path == [0, 1] && o.Accepted?
    else if room == 1 then path == [0, 0] && o.Dropped?
    else if mem[a + 1] == 1 then path == [0, 0, 1] && o.Accepted?
    else path == [0, 0, 0] && o.Dropped?
  }

  lemma {:induction false} LoopRuns(mem: seq<Byte>, path: seq<nat>, hs: seq<HeaderDesc>, a: nat, room: nat, o: Outcome)
    requires |hs| == 2 && hs[1].pointer.Null? && a + room <= |mem| && LabelLoop().KnowsAll(W, S)
    requires TwoLabels().Accepts(Position(hs, [-1], a, room))
    requires LabelLoop().Runs(TwoLabels(), mem, path, Position(hs, [-1], a, room), o) && path[0] == 0
    ensures Fate(mem, a, room, path, o)
  {
    hide AllKnown, Resolve, Laid, Span;
    var p0 := Position(hs, [-1], a, room);
    LoopStep(mem, path, p0, o);
    if room >= 1 {
      assert path == [0] + path[1..];
      var p1 := Later(p0);
      if mem[a] == 1 {
        assert path[1..] == [1];
      } else {
        LoopStep(mem, path[1..], p1, o);
        if room >= 2 {
          assert path[1..] == [0] + path[1..][1..];
          if mem[a + 1] == 1 {
            assert path[1..][1..] == [1];
          } else {
            LoopStep(mem, path[1..][1..], Later(p1), o);
          }
        }
      }
    }
  }

  lemma {:induction false} AcceptedExtracts(room: int)
    requires LabelLoop().KnowsAll(W, S)
    ensures room >= 1 ==> LabelLoop().Extracts(W, S, [0, 1], [-1], room) == Some(Progress([0], [0], room - 1))
    ensures room >= 2 ==> LabelLoop().Extracts(W, S, [0, 0, 1], [-1], room) == Some(Progress([0, 1], [1], room - 2))
  {
    hide AllKnown, Resolve, Parser.Extracts;
    var p := LabelLoop();
    assert p.states[0] == State(NEXT, Select) && p.states[1] == Accept;
    assert [0, 1] == [0] + [1] && [0, 0, 1] == [0] + [0, 1];
    assert [0] + [] == [0] && [1] + [] == [1] && [0] + [1] == [0, 1];
    if room >= 1 {
      OneLabel(-1, room);
      ExtractsOne(p, W, S, 1, [0], room - 1);
      ExtractsMore(p, W, S, 0, [1], [-1], room);
    }
    if room >= 2 {
      OneLabel(0, room - 1);
      ExtractsOne(p, W, S, 1, [1], room - 2);
      ExtractsMore(p, W, S, 0, [1], [0], room - 1);
      ExtractsMore(p, W, S, 0, [0, 1], [-1], room);
    }
  }

  lemma {:induction false} LabelsLaid(hs: seq<HeaderDesc>, a: nat)
    requires |hs| == 2
    ensures Laid(W, [false, false], hs, [0], a) == [HeaderDesc(At(a), 1, true), hs[1]]
    ensures Laid(W, [false, false], hs, [0, 1], a) == [HeaderDesc(At(a), 1, true), HeaderDesc(At(a + 1), 1, true)]
  {
    hide Laid;
    OneLaid(hs, 0, a);
    OneLaid(hs[0 := HeaderDesc(At(a), 1, true)], 1, a + 1);
    assert [0, 1] == [0] + [1];
    LaidMore(W, [false, false], hs, [0], [1], a);
  }

  /** A packet of `len` bytes at `at` arrives: it is accepted with one label if its first byte is 1, with two if the
      second is, and otherwise dropped. */
  method Receive(pd: PacketDescriptor, at: nat, len: nat) returns (o: Outcome)
    requires pd.Valid() && pd.Prog() == TwoLabels() && pd.layout.lo <= at && at + len <= pd.layout.hi
    modifies pd
    ensures pd.Parsing() && pd.dropped == o.Dropped?
    ensures if len >= 1 && pd.mem[at] == 1 then
              o.Accepted? && pd.payloadSize == len - 1 && pd.headers[0].pointer == At(at) && pd.headers[1].pointer == Null
            else if len >= 2 && pd.mem[at + 1] == 1 then
              o.Accepted? && pd.payloadSize == len - 2 && pd.headers[0].pointer == At(at) && pd.headers[1].pointer == At(at + 1)
            else o.Dropped? && pd.payloadSize == old(pd.payloadSize)
  {
    hide Resolve, Parser.Runs, Parser.Extracts, Stored, Untouched, StacksFilled, Parser.WellFormed, Parser.KnowsAll,
         Laid, LabelLoop;
    pd.StartPacket(at, len);
    LoopFormed();
    assert pd.current == [-1];
    ghost var path;
    ghost var hs := pd.headers;
    assert pd.Here() == Position(hs, [-1], at, len);
    o, path := pd.RunParser(LabelLoop(), 0, [1, 0]);
    LoopRuns(pd.mem[..], path, hs, at, len, o);
    AcceptedExtracts(len);
    LabelsLaid(hs, at);
  }
}
