/** The packet descriptor: parsing, header operations and deparsing of one packet. */
module Packet {
  import opened Sequences
  import opened Options
  import opened Memory
  import opened Deparse
  import opened Storage
  import opened Emission

  /** A header stack: `size` header instances of one type from index `start` on. */
  datatype Stack = Stack(start: nat, size: nat) {
    predicate Has(h: nat) { start <= h < start + size }
  }

  datatype Extraction = Extracted(size: nat) | AfterEndOfPacket | OverStackSize

  /** What a parser state extracts: a given header, or the next free one of a stack. */
  datatype Component = ExtractHeader(hdr: nat) | ExtractNext(stk: nat)

  // ---------------------------------------------------------------- the storage invariant, step by step

  lemma {:induction false} ExtractStored(l: Layout, hs: seq<HeaderDesc>, log: seq<Tile>, start: nat, end: nat,
                                         h: nat, d: HeaderDesc)
    requires Stored(l, hs, log, start, end) && h < |hs| && end + l.widths[h] <= l.hi
    requires d.size == l.widths[h] && (d.pointer.Null? || d.pointer == At(end))
    ensures Stored(l, hs[h := d], log + [Tile(h, end)], start, end + l.widths[h])
  {
    var log', hs', end' := log + [Tile(h, end)], hs[h := d], end + l.widths[h];
    forall k | 0 <= k < |log'| ensures TileAt(l.widths, log', k, end') {
      if k < |log| {
        assert TileAt(l.widths, log, k, end);
      }
    }
    forall g | 0 <= g < |hs| ensures Placed(l, log', g, hs'[g].pointer) {
      assert log'[|log|] in log';
      assert Placed(l, log, g, hs[g].pointer);
    }
  }

  lemma {:induction false} RepointStored(l: Layout, hs: seq<HeaderDesc>, log: seq<Tile>, start: nat, end: nat,
                                         h: nat, d: HeaderDesc)
    requires Stored(l, hs, log, start, end) && h < |hs| && d.size == l.widths[h] && Placed(l, log, h, d.pointer)
    ensures Stored(l, hs[h := d], log, start, end)
  {
  }

  lemma {:induction false} ExtractUntouched(hs: seq<HeaderDesc>, log: seq<Tile>, h: nat, d: HeaderDesc, a: nat)
    requires Untouched(hs, log) && h < |hs| && d.pointer == At(a)
    ensures Untouched(hs[h := d], log + [Tile(h, a)])
  {
    assert (log + [Tile(h, a)])[..|log|] == log;
  }

  lemma {:induction false} FreshStored(l: Layout, hs: seq<HeaderDesc>, start: nat)
    requires l.Valid() && |hs| == |l.widths| && l.lo <= start <= l.hi
    requires forall h | 0 <= h < |hs| :: hs[h].size == l.widths[h] && hs[h].pointer.Null?
    ensures Stored(l, hs, [], start, start) && Untouched(hs, [])
  {
  }

  /** Copying header `s` over header `d` of the same width gives `d` the bytes of `s` and changes no other
      valid header. */
  lemma {:induction false} AssignCopies(l: Layout, mem: seq<Byte>, hs: seq<HeaderDesc>, log: seq<Tile>,
                                        start: nat, end: nat, d: nat, s: nat)
    requires Stored(l, hs, log, start, end) && Sized(l, hs, |mem|) && d < |hs| && s < |hs|
    requires hs[d].pointer.At? && hs[s].pointer.At? && l.widths[d] == l.widths[s]
    ensures hs[d].Within(|mem|) && hs[s].Within(|mem|)
    ensures var m1 := Copy(mem, hs[d].pointer.addr, hs[s].pointer.addr, l.widths[s]);
            && Bytes(m1, hs[d]) == Bytes(mem, hs[s])
            && forall g | 0 <= g < |hs| && g != d :: hs[g].Within(|mem|) && Bytes(m1, hs[g]) == Bytes(mem, hs[g])
  {
    hide Copy;
    assert hs[d].Within(|mem|) && hs[s].Within(|mem|);
    CopyLands(mem, hs[d].pointer.addr, hs[s].pointer.addr, l.widths[s]);
    forall g | 0 <= g < |hs| && g != d
      ensures hs[g].Within(|mem|)
      ensures Bytes(Copy(mem, hs[d].pointer.addr, hs[s].pointer.addr, l.widths[s]), hs[g]) == Bytes(mem, hs[g])
    {
      assert hs[g].Within(|mem|);
      if hs[g].pointer.At? {
        RangesDisjoint(l, hs, log, start, end, d, g);
        CopyElsewhere(mem, hs[d].pointer.addr, hs[s].pointer.addr, l.widths[s], hs[g].pointer.addr, hs[g].size);
      }
    }
  }

  // ---------------------------------------------------------------- header stacks

  /** The headers of stack `st` that were extracted, in order. */
  function Picks(log: seq<Tile>, st: Stack): seq<nat> {
    if log == [] then []
    else
      var h := log[|log| - 1].hdr;
      Picks(log[..|log| - 1], st) + if st.Has(h) then [h] else []
  }

  /** The first `n` headers of a stack. */
  function FirstOf(st: Stack, n: nat): (r: seq<nat>)
    ensures |r| == n
  {
    seq(n, i => st.start + i)
  }

  predicate StacksApart(stacks: seq<Stack>) {
    forall s, t | 0 <= s < t < |stacks| ::
      stacks[s].start + stacks[s].size <= stacks[t].start || stacks[t].start + stacks[t].size <= stacks[s].start
  }

  /** The k-th extraction into a stack went to its k-th header, for every stack and every k. */
  ghost predicate StacksFilled(stacks: seq<Stack>, current: seq<int>, log: seq<Tile>)
    requires |current| == |stacks|
  {
    forall s | 0 <= s < |stacks| ::
      -1 <= current[s] < stacks[s].size && Picks(log, stacks[s]) == FirstOf(stacks[s], current[s] + 1)
  }

  lemma {:induction false} PickStep(log: seq<Tile>, t: Tile, st: Stack)
    ensures Picks(log + [t], st) == Picks(log, st) + if st.Has(t.hdr) then [t.hdr] else []
  {
    assert (log + [t])[..|log|] == log;
  }

  lemma {:induction false} NextFills(stacks: seq<Stack>, current: seq<int>, log: seq<Tile>, s: nat, a: nat)
    requires |current| == |stacks| && StacksFilled(stacks, current, log) && StacksApart(stacks)
    requires s < |stacks| && current[s] + 1 < stacks[s].size
    ensures StacksFilled(stacks, current[s := current[s] + 1], log + [Tile(stacks[s].start + current[s] + 1, a)])
  {
    hide Picks;
    var t := Tile(stacks[s].start + current[s] + 1, a);
    var c := current[s := current[s] + 1];
    forall r | 0 <= r < |stacks|
      ensures -1 <= c[r] < stacks[r].size && Picks(log + [t], stacks[r]) == FirstOf(stacks[r], c[r] + 1)
    {
      PickStep(log, t, stacks[r]);
      if r == s {
        assert FirstOf(stacks[r], c[r] + 1) == FirstOf(stacks[r], current[r] + 1) + [t.hdr];
      } else {
        assert !stacks[r].Has(t.hdr);
      }
    }
  }

  lemma {:induction false} PlainKeepsFilled(stacks: seq<Stack>, current: seq<int>, log: seq<Tile>, t: Tile)
    requires |current| == |stacks| && StacksFilled(stacks, current, log)
    requires forall s | 0 <= s < |stacks| :: !stacks[s].Has(t.hdr)
    ensures StacksFilled(stacks, current, log + [t])
  {
    hide Picks;
    forall s | 0 <= s < |stacks| ensures Picks(log + [t], stacks[s]) == Picks(log, stacks[s]) {
      PickStep(log, t, stacks[s]);
    }
  }

  // ---------------------------------------------------------------- what the components of a state extract

  function Headers(log: seq<Tile>): (r: seq<nat>)
    ensures |r| == |log|
  {
    seq(|log|, i requires 0 <= i < |log| => log[i].hdr)
  }

  lemma {:induction false} HeadersStep(log: seq<Tile>, t: Tile)
    ensures Headers(log + [t]) == Headers(log) + [t.hdr]
  {
  }

  /** The header a component stands for when the stacks are filled up to `current`. */
  function Target(stacks: seq<Stack>, c: Component, current: seq<int>): int
    requires |current| == |stacks| && (c.ExtractNext? ==> c.stk < |stacks|)
  {
    match c
    case ExtractHeader(h) => h
    case ExtractNext(s) => stacks[s].start + current[s] + 1
  }

  function Advance(c: Component, current: seq<int>): (r: seq<int>)
    requires c.ExtractNext? ==> c.stk < |current|
    ensures |r| == |current|
  {
    match c
    case ExtractHeader(_) => current
    case ExtractNext(s) => current[s := current[s] + 1]
  }

  predicate Known(widths: seq<nat>, stacks: seq<Stack>, c: Component) {
    match c
    case ExtractHeader(h) => h < |widths| && forall s | 0 <= s < |stacks| :: !stacks[s].Has(h)
    case ExtractNext(s) => s < |stacks|
  }

  predicate AllKnown(widths: seq<nat>, stacks: seq<Stack>, cs: seq<Component>) {
    cs != [] ==> Known(widths, stacks, cs[0]) && AllKnown(widths, stacks, cs[1..])
  }

  /** The stacks are header instances, and none is filled beyond its size. */
  predicate Fits(widths: seq<nat>, stacks: seq<Stack>, current: seq<int>) {
    && |current| == |stacks|
    && forall s | 0 <= s < |stacks| :: stacks[s].start + stacks[s].size <= |widths| && -1 <= current[s] < stacks[s].size
  }

  /** A component can be extracted: its stack is not full and `room` bytes are enough. */
  predicate CanExtract(widths: seq<nat>, stacks: seq<Stack>, c: Component, current: seq<int>, room: int)
    requires Fits(widths, stacks, current) && Known(widths, stacks, c)
  {
    (c.ExtractNext? ==> current[c.stk] + 1 < stacks[c.stk].size) && widths[Target(stacks, c, current)] <= room
  }

  /** What has been extracted, how far the stacks are filled, and how many bytes are left. */
  datatype Progress = Progress(headers: seq<nat>, current: seq<int>, room: int)

  function Prefixed(hs: seq<nat>, rest: Option<Progress>): Option<Progress> {
    match rest
    case None => None
    case Some(q) => Some(Progress(hs + q.headers, q.current, q.room))
  }

  /** What the components extract one after the other; none if a stack is full or the packet, with `room`
      bytes left, is too short. */
  function Resolve(widths: seq<nat>, stacks: seq<Stack>, cs: seq<Component>, current: seq<int>,
                   room: int): (r: Option<Progress>)
    requires Fits(widths, stacks, current) && AllKnown(widths, stacks, cs)
    ensures r.Some? ==> |r.value.headers| == |cs| && Fits(widths, stacks, r.value.current)
  {
    if cs == [] then Some(Progress([], current, room))
    else
      var c := cs[0];
      if CanExtract(widths, stacks, c, current, room) then
        var h := Target(stacks, c, current);
        Prefixed([h], Resolve(widths, stacks, cs[1..], Advance(c, current), room - widths[h]))
      else None
  }

  // ---------------------------------------------------------------- what extractions leave in the descriptors

  /** The descriptor of a header found at `at`. */
  function Found(widths: seq<nat>, skipped: seq<bool>, h: nat, at: nat): HeaderDesc
    requires h < |widths| == |skipped|
  {
    HeaderDesc(if skipped[h] then Null else At(at), widths[h], !skipped[h])
  }

  /** The descriptors after the headers `picks` were found one after the other from `at` on. */
  function Laid(widths: seq<nat>, skipped: seq<bool>, hs: seq<HeaderDesc>, picks: seq<nat>,
                at: nat): (r: seq<HeaderDesc>)
    requires |hs| == |widths| == |skipped|
    ensures |r| == |hs|
    decreases |picks|
  {
    if picks == [] || picks[0] >= |hs| then hs
    else Laid(widths, skipped, hs[picks[0] := Found(widths, skipped, picks[0], at)], picks[1..], at + widths[picks[0]])
  }

  /** How many bytes the headers take. */
  function Span(widths: seq<nat>, picks: seq<nat>): nat {
    if picks == [] || picks[0] >= |widths| then 0 else widths[picks[0]] + Span(widths, picks[1..])
  }

  lemma {:induction false} LaidFirst(widths: seq<nat>, skipped: seq<bool>, hs: seq<HeaderDesc>, h: nat,
                                     rest: seq<nat>, at: nat)
    requires |hs| == |widths| == |skipped| && h < |hs|
    ensures Laid(widths, skipped, hs, [h] + rest, at)
         == Laid(widths, skipped, hs[h := Found(widths, skipped, h, at)], rest, at + widths[h])
    ensures Span(widths, [h] + rest) == widths[h] + Span(widths, rest)
  {
    assert ([h] + rest)[1..] == rest;
  }

  lemma {:induction false} LaidNothing(widths: seq<nat>, skipped: seq<bool>, hs: seq<HeaderDesc>, at: nat)
    requires |hs| == |widths| == |skipped|
    ensures Laid(widths, skipped, hs, [], at) == hs && Span(widths, []) == 0
  {
  }

  ghost predicate InRange(widths: seq<nat>, picks: seq<nat>) {
    forall i | 0 <= i < |picks| :: picks[i] < |widths|
  }

  lemma {:induction false} LaidMore(widths: seq<nat>, skipped: seq<bool>, hs: seq<HeaderDesc>, a: seq<nat>,
                                    b: seq<nat>, at: nat)
    requires |hs| == |widths| == |skipped| && InRange(widths, a)
    ensures Laid(widths, skipped, hs, a + b, at)
         == Laid(widths, skipped, Laid(widths, skipped, hs, a, at), b, at + Span(widths, a))
    decreases |a|
  {
    if a == [] {
      assert a + b == b;
    } else {
      assert (a + b)[1..] == a[1..] + b;
      LaidMore(widths, skipped, hs[a[0] := Found(widths, skipped, a[0], at)], a[1..], b, at + widths[a[0]]);
    }
  }

  /** What resolves are headers, and the room shrinks by their bytes. */
  lemma {:induction false} ResolveSpan(widths: seq<nat>, stacks: seq<Stack>, cs: seq<Component>, current: seq<int>,
                                       room: int)
    requires Fits(widths, stacks, current) && AllKnown(widths, stacks, cs)
    ensures var r := Resolve(widths, stacks, cs, current, room);
            r.Some? ==> InRange(widths, r.value.headers) && r.value.room == room - Span(widths, r.value.headers)
  {
    if cs != [] && CanExtract(widths, stacks, cs[0], current, room) {
      var h := Target(stacks, cs[0], current);
      ResolveSpan(widths, stacks, cs[1..], Advance(cs[0], current), room - widths[h]);
    }
  }

  /** What a component extracts is at least a byte long. */
  ghost predicate Consumes(widths: seq<nat>, stacks: seq<Stack>, c: Component) {
    match c
    case ExtractHeader(h) => h < |widths| && widths[h] > 0
    case ExtractNext(s) => s < |stacks| && forall h | 0 <= h < |widths| && stacks[s].Has(h) :: widths[h] > 0
  }

  ghost predicate ConsumesAny(widths: seq<nat>, stacks: seq<Stack>, cs: seq<Component>) {
    cs != [] && (Consumes(widths, stacks, cs[0]) || ConsumesAny(widths, stacks, cs[1..]))
  }

  lemma {:induction false} ResolveNothing(widths: seq<nat>, stacks: seq<Stack>, current: seq<int>, room: int)
    requires Fits(widths, stacks, current)
    ensures Resolve(widths, stacks, [], current, room) == Some(Progress([], current, room))
            && !ConsumesAny(widths, stacks, [])
  {
  }

  lemma {:induction false} FirstKnown(widths: seq<nat>, stacks: seq<Stack>, cs: seq<Component>)
    requires AllKnown(widths, stacks, cs) && cs != []
    ensures Known(widths, stacks, cs[0]) && AllKnown(widths, stacks, cs[1..])
  {
  }

  /** A list resolves if its first component can be extracted and the rest then resolves. */
  lemma {:induction false} ResolveFirst(widths: seq<nat>, stacks: seq<Stack>, cs: seq<Component>,
                                        current: seq<int>, room: int, log: seq<Tile>, a: nat)
    requires Fits(widths, stacks, current) && cs != [] && AllKnown(widths, stacks, cs)
    ensures if CanExtract(widths, stacks, cs[0], current, room) then
              var h, next := Target(stacks, cs[0], current), Advance(cs[0], current);
              && 0 <= h < |widths| && Fits(widths, stacks, next)
              && var all := Resolve(widths, stacks, cs, current, room);
                 var rest := Resolve(widths, stacks, cs[1..], next, room - widths[h]);
              && all.Some? == rest.Some?
              && (all.Some? ==> all.value.headers == [h] + rest.value.headers)
              && (all.Some? ==> Headers(log) + all.value.headers == Headers(log + [Tile(h, a)]) + rest.value.headers)
              && (all.Some? ==> all.value.current == rest.value.current && all.value.room == rest.value.room)
              && (ConsumesAny(widths, stacks, cs) ==> widths[h] > 0 || ConsumesAny(widths, stacks, cs[1..]))
            else Resolve(widths, stacks, cs, current, room).None?
  {
    if CanExtract(widths, stacks, cs[0], current, room) {
      HeadersStep(log, Tile(Target(stacks, cs[0], current), a));
    }
  }

  // ---------------------------------------------------------------- parser state graphs

  /** A state goes on to a fixed state or evaluates a select expression. */
  datatype Next = Goto(state: nat) | Select

  datatype ParserState = Accept | Reject | State(components: seq<Component>, next: Next)

  /** What the generated tables fix about headers: their widths, which of them are skipped, and the stacks. */
  datatype Program = Program(widths: seq<nat>, skipped: seq<bool>, stacks: seq<Stack>) {
    predicate Accepts(at: Position) {
      |at.headers| == |widths| == |skipped| && Fits(widths, stacks, at.current)
    }

    /** The position after the extractions that `q` describes. */
    function After(at: Position, q: Progress): (r: Position)
      requires Accepts(at) && Fits(widths, stacks, q.current)
      ensures Accepts(r)
    {
      Position(Laid(widths, skipped, at.headers, q.headers, at.ptr), q.current, at.ptr + Span(widths, q.headers), q.room)
    }
  }

  /** A point of a run: the descriptors, the fill levels of the stacks, the address of the next header and the
      bytes left in the packet. */
  datatype Position = Position(headers: seq<HeaderDesc>, current: seq<int>, ptr: nat, room: int)

  /** `select` may look at memory and headers in any way; it yields none if no case matches. */
  datatype Parser = Parser(states: seq<ParserState>, select: (nat, seq<Byte>, seq<HeaderDesc>) -> Option<nat>) {
    /** The state after `s`; none if a select expression has no matching case. */
    function Successor(s: nat, mem: seq<Byte>, hs: seq<HeaderDesc>): Option<nat>
      requires s < |states| && states[s].State?
    {
      match states[s].next
      case Goto(u) => Some(u)
      case Select => select(s, mem, hs)
    }

    ghost predicate Leads(s: nat, t: nat)
      requires s < |states| && states[s].State?
    {
      exists mem, hs :: Successor(s, mem, hs) == Some(t)
    }

    predicate KnowsAll(widths: seq<nat>, stacks: seq<Stack>) {
      forall s | 0 <= s < |states| && states[s].State? :: AllKnown(widths, stacks, states[s].components)
    }

    /** What the states of a path extract; none if some extraction fails. */
    function Extracts(widths: seq<nat>, stacks: seq<Stack>, path: seq<nat>, current: seq<int>,
                      room: int): Option<Progress>
      requires KnowsAll(widths, stacks) && Fits(widths, stacks, current)
      requires forall i | 0 <= i < |path| :: path[i] < |states|
      decreases |path|
    {
      if path == [] then Some(Progress([], current, room))
      else if !states[path[0]].State? then Extracts(widths, stacks, path[1..], current, room)
      else
        match Resolve(widths, stacks, states[path[0]].components, current, room)
        case None => None
        case Some(q) => Prefixed(q.headers, Extracts(widths, stacks, path[1..], q.current, q.room))
    }

    /** The run from `at` goes along `path` and ends with `o`: it ends at accept and reject, where extraction
        fails, and where no case matches the headers as they are then; otherwise the next state is the one that
        the state names or that its select expression gives. */
    ghost predicate Runs(prog: Program, mem: seq<Byte>, path: seq<nat>, at: Position, o: Outcome)
      requires prog.Accepts(at) && KnowsAll(prog.widths, prog.stacks)
      decreases |path|
    {
      && path != [] && path[0] < |states|
      && match states[path[0]]
         case Accept => |path| == 1 && o.Accepted?
         case Reject => |path| == 1 && o.Dropped?
         case State(cs, _) =>
           match Resolve(prog.widths, prog.stacks, cs, at.current, at.room)
           case None => |path| == 1 && o.Dropped?
           case Some(q) =>
             match Successor(path[0], mem, prog.After(at, q).headers)
             case None => |path| == 1 && o.NoCaseMatched?
             case Some(t) => |path| > 1 && path[1] == t && Runs(prog, mem, path[1..], prog.After(at, q), o)
    }

    /** All references resolve, and each cycle has a state that extracts at least a byte: where a state
        extracts nothing, the rank goes down. */
    ghost predicate WellFormed(widths: seq<nat>, stacks: seq<Stack>, rank: seq<nat>) {
      && |rank| == |states| && KnowsAll(widths, stacks)
      && forall s, t: nat | 0 <= s < |states| && states[s].State? && Leads(s, t) ::
           t < |states| && (ConsumesAny(widths, stacks, states[s].components) || rank[t] < rank[s])
    }
  }

  datatype Outcome = Accepted | Dropped | NoCaseMatched

  /** A path of one state extracts what the state does. */
  lemma {:induction false} ExtractsOne(p: Parser, widths: seq<nat>, stacks: seq<Stack>, s: nat, current: seq<int>,
                                       room: int)
    requires p.KnowsAll(widths, stacks) && Fits(widths, stacks, current) && s < |p.states|
    ensures p.Extracts(widths, stacks, [s], current, room)
            == if p.states[s].State? then Resolve(widths, stacks, p.states[s].components, current, room)
               else Some(Progress([], current, room))
  {
    assert [s][1..] == [];
    if p.states[s].State? {
      var r := Resolve(widths, stacks, p.states[s].components, current, room);
      assert r.Some? ==> r.value.headers + [] == r.value.headers;
    }
  }

  lemma {:induction false} ExtractsMore(p: Parser, widths: seq<nat>, stacks: seq<Stack>, s: nat, rest: seq<nat>,
                                        current: seq<int>, room: int)
    requires p.KnowsAll(widths, stacks) && Fits(widths, stacks, current) && s < |p.states| && p.states[s].State?
    requires forall i | 0 <= i < |rest| :: rest[i] < |p.states|
    requires Resolve(widths, stacks, p.states[s].components, current, room).Some?
    ensures var q := Resolve(widths, stacks, p.states[s].components, current, room).value;
            p.Extracts(widths, stacks, [s] + rest, current, room)
            == Prefixed(q.headers, p.Extracts(widths, stacks, rest, q.current, q.room))
  {
    assert ([s] + rest)[1..] == rest;
  }

  /** There is only one run: path and outcome are determined by memory and the position at the start. */
  lemma {:induction false} RunsUnique(p: Parser, prog: Program, mem: seq<Byte>, path: seq<nat>, path': seq<nat>,
                                      at: Position, o: Outcome, o': Outcome)
    requires prog.Accepts(at) && p.KnowsAll(prog.widths, prog.stacks)
    requires p.Runs(prog, mem, path, at, o) && p.Runs(prog, mem, path', at, o') && path[0] == path'[0]
    ensures path == path' && o == o'
    decreases |path|
  {
    if |path| == 1 || |path'| == 1 {
      assert |path| == |path'|;
    } else {
      var q := Resolve(prog.widths, prog.stacks, p.states[path[0]].components, at.current, at.room).value;
      RunsUnique(p, prog, mem, path[1..], path'[1..], prog.After(at, q), o, o');
      assert path == [path[0]] + path[1..] && path' == [path'[0]] + path'[1..];
    }
  }

  ghost predicate OfStates(p: Parser, path: seq<nat>) {
    path != [] && forall i | 0 <= i < |path| :: path[i] < |p.states|
  }

  /** How a run that went along `path` ended, given what the states on it extract and the descriptors `hs` at
      its end. */
  ghost predicate Ends(p: Parser, mem: seq<Byte>, path: seq<nat>, r: Option<Progress>, hs: seq<HeaderDesc>, o: Outcome)
    requires OfStates(p, path)
  {
    var last := path[|path| - 1];
    match p.states[last]
    case Accept => r.Some? && o.Accepted?
    case Reject => r.Some? && o.Dropped?
    case State(_, next) =>
      if r.None? then o.Dropped? else o.NoCaseMatched? && next.Select? && p.select(last, mem, hs) == None
  }

  /** A run ends without a matching case if and only if all extractions succeeded, its last state has a select
      expression, and that expression has no case for the headers as they are then. */
  lemma {:induction false} RunEnds(p: Parser, prog: Program, mem: seq<Byte>, path: seq<nat>, at: Position, o: Outcome)
    requires prog.Accepts(at) && p.KnowsAll(prog.widths, prog.stacks) && p.Runs(prog, mem, path, at, o)
    ensures OfStates(p, path)
    ensures var r := p.Extracts(prog.widths, prog.stacks, path, at.current, at.room);
            var picks := if r.None? then [] else r.value.headers;
            Ends(p, mem, path, r, Laid(prog.widths, prog.skipped, at.headers, picks, at.ptr), o)
    decreases |path|
  {
    hide Resolve, Laid, Span;
    var s, rest := path[0], path[1..];
    ExtractsOne(p, prog.widths, prog.stacks, s, at.current, at.room);
    assert path == [s] + rest;
    if rest == [] {
      assert path == [s];
      LaidNothing(prog.widths, prog.skipped, at.headers, at.ptr);
    } else {
      var q := Resolve(prog.widths, prog.stacks, p.states[s].components, at.current, at.room).value;
      RunEnds(p, prog, mem, rest, prog.After(at, q), o);
      assert path[|path| - 1] == rest[|rest| - 1];
      ExtractsMore(p, prog.widths, prog.stacks, s, rest, at.current, at.room);
      ResolveSpan(prog.widths, prog.stacks, p.states[s].components, at.current, at.room);
      var r := p.Extracts(prog.widths, prog.stacks, rest, q.current, q.room);
      if r.Some? { LaidMore(prog.widths, prog.skipped, at.headers, q.headers, r.value.headers, at.ptr); }
    }
  }

  lemma {:induction false} NothingMore(before: seq<nat>)
    ensures before + [] == before
  {
  }

  /** A run of one state. */
  lemma {:induction false} RunStops(p: Parser, prog: Program, mem: seq<Byte>, s: nat, at: Position, o: Outcome)
    requires prog.Accepts(at) && p.KnowsAll(prog.widths, prog.stacks) && s < |p.states|
    requires match p.states[s]
             case Accept => o.Accepted?
             case Reject => o.Dropped?
             case State(cs, _) =>
               match Resolve(prog.widths, prog.stacks, cs, at.current, at.room)
               case None => o.Dropped?
               case Some(q) => o.NoCaseMatched? && p.Successor(s, mem, prog.After(at, q).headers) == None
    ensures p.Runs(prog, mem, [s], at, o)
  {
    hide Resolve, Laid, Span;
  }

  /** A run that goes on after its first state. */
  lemma {:induction false} RunContinues(p: Parser, prog: Program, mem: seq<Byte>, s: nat, rest: seq<nat>,
                                        at: Position, o: Outcome, before: seq<nat>)
    requires prog.Accepts(at) && p.KnowsAll(prog.widths, prog.stacks) && s < |p.states| && p.states[s].State?
    requires OfStates(p, rest)
    requires var r := Resolve(prog.widths, prog.stacks, p.states[s].components, at.current, at.room);
             && r.Some? && p.Successor(s, mem, prog.After(at, r.value).headers) == Some(rest[0])
             && p.Runs(prog, mem, rest, prog.After(at, r.value), o)
    ensures OfStates(p, [s] + rest) && p.Runs(prog, mem, [s] + rest, at, o) && ([s] + rest)[|rest|] == rest[|rest| - 1]
    ensures var q := Resolve(prog.widths, prog.stacks, p.states[s].components, at.current, at.room).value;
            var r := p.Extracts(prog.widths, prog.stacks, rest, q.current, q.room);
            var all := p.Extracts(prog.widths, prog.stacks, [s] + rest, at.current, at.room);
            && all.Some? == r.Some?
            && (r.Some? ==>
                  && before + all.value.headers == before + q.headers + r.value.headers
                  && all.value.current == r.value.current && all.value.room == r.value.room
                  && Laid(prog.widths, prog.skipped, at.headers, all.value.headers, at.ptr)
                     == Laid(prog.widths, prog.skipped, prog.After(at, q).headers, r.value.headers, prog.After(at, q).ptr))
  {
    hide Resolve, Laid, Span, Parser.Extracts;
    var cs := p.states[s].components;
    var q := Resolve(prog.widths, prog.stacks, cs, at.current, at.room).value;
    assert ([s] + rest)[1..] == rest;
    ExtractsMore(p, prog.widths, prog.stacks, s, rest, at.current, at.room);
    ResolveSpan(prog.widths, prog.stacks, cs, at.current, at.room);
    var r := p.Extracts(prog.widths, prog.stacks, rest, q.current, q.room);
    if r.Some? {
      LaidMore(prog.widths, prog.skipped, at.headers, q.headers, r.value.headers, at.ptr);
    }
  }

  /** A program that skips a header also has a local one. */
  predicate SkipsAreTold(skipped: seq<bool>, local: seq<bool>) {
    (exists h :: 0 <= h < |skipped| && skipped[h]) ==> exists h :: 0 <= h < |local| && local[h]
  }

  class PacketDescriptor {
    const layout: Layout
    const mem: array<Byte>
    const skipped: seq<bool>        // headers that are parsed but not kept
    const local: seq<bool>          // headers declared inside the parser
    const stacks: seq<Stack>

    var data: nat
    var pktLen: nat
    var extractPtr: nat
    var parsedSize: nat
    var payloadSize: nat
    var deparseSize: nat
    var headers: seq<HeaderDesc>
    var current: seq<int>
    var reorder: seq<nat>
    var reordering: bool
    var dropped: bool

    /** All extractions from the current packet. */
    ghost var log: seq<Tile>

    ghost predicate Valid()
      reads this
    {
      && layout.Valid() && layout.FitsIn(mem.Length)
      && |headers| == |layout.widths| && |skipped| == |layout.widths| && SkipsAreTold(skipped, local)
      && (forall h | 0 <= h < |headers| :: headers[h].size == layout.widths[h])
      && layout.lo <= data && data + pktLen <= layout.hi
      && Indices(reorder, |headers|)
      && |current| == |stacks| && StacksApart(stacks)
      && (forall s | 0 <= s < |stacks| :: stacks[s].start + stacks[s].size <= |layout.widths|)
    }

    /** What holds from the start of a packet to its deparsing: every valid header is in its own place, and
        the extracted headers tile a prefix of the packet. */
    ghost predicate Parsing()
      reads this
    {
      && Valid() && Stored(layout, headers, log, data, extractPtr)
      && parsedSize == extractPtr - data && parsedSize <= pktLen
    }

    /** The flag is only clear if no header's validity or pointer changed since its extraction. */
    ghost predicate FlagTells()
      reads this
    {
      !reordering ==> Untouched(headers, log)
    }

    predicate AnyLocal() {
      exists h :: 0 <= h < |local| && local[h]
    }

    /** The tables of the program. */
    function Prog(): Program { Program(layout.widths, skipped, stacks) }

    /** Where in the packet the parser is. */
    ghost function Here(): Position
      reads this
    {
      Position(headers, current, extractPtr, pktLen - parsedSize)
    }

    ghost predicate StacksOk()
      reads this
    {
      |current| == |stacks| && StacksFilled(stacks, current, log)
    }

    lemma StacksFit()
      requires Parsing() && StacksOk()
      ensures Fits(layout.widths, stacks, current) && |headers| == |layout.widths| == |skipped|
    {
    }

    ghost function Content(h: nat): seq<Byte>
      requires Parsing() && h < |headers|
      reads this, mem
    {
      AllInMemory(layout, headers, log, data, extractPtr, mem.Length);
      Bytes(mem[..], headers[h])
    }

    ghost function Packet(): seq<Byte>
      requires Valid()
      reads this, mem
    {
      mem[data..data + pktLen]
    }

    constructor (layout: Layout, mem: array<Byte>, skipped: seq<bool>, local: seq<bool>, stacks: seq<Stack>)
      requires layout.Valid() && layout.FitsIn(mem.Length) && |skipped| == |layout.widths| && StacksApart(stacks)
      requires SkipsAreTold(skipped, local)
      requires forall s | 0 <= s < |stacks| :: stacks[s].start + stacks[s].size <= |layout.widths|
      ensures Parsing() && FlagTells() && StacksOk() && log == [] && !dropped && this.mem == mem
              && this.layout == layout
      ensures this.skipped == skipped && this.local == local && this.stacks == stacks && reorder == []
              && payloadSize == 0
      ensures forall h | 0 <= h < |headers| :: headers[h] == HeaderDesc(Null, layout.widths[h], false)
    {
      this.layout, this.mem, this.skipped, this.local, this.stacks := layout, mem, skipped, local, stacks;
      headers := seq(|layout.widths|, h requires 0 <= h < |layout.widths| => HeaderDesc(Null, layout.widths[h], false));
      current := seq(|stacks|, s => -1);
      data, pktLen, extractPtr := layout.lo, 0, layout.lo;
      parsedSize, payloadSize, deparseSize := 0, 0, 0;
      reorder, reordering, dropped := [], false, false;
      log := [];
      new;
      FreshStored(layout, headers, data);
    }

    /** The flag is cleared, every header is invalid and every stack empty. */
    method ResetHeaders()
      modifies this`headers, this`current, this`reordering
      ensures !reordering && current == seq(|stacks|, s => -1) && |headers| == old(|headers|)
      ensures forall h | 0 <= h < |headers| :: headers[h] == old(headers[h]).(pointer := Null)
    {
      reordering := false;
      for h := 0 to |headers|
        invariant |headers| == old(|headers|) && !reordering
        invariant forall g | 0 <= g < h :: headers[g] == old(headers[g]).(pointer := Null)
        invariant forall g | h <= g < |headers| :: headers[g] == old(headers[g])
      {
        headers := headers[h := headers[h].(pointer := Null)];
      }
      current := seq(|stacks|, s => -1);
    }

    /** A new packet of `len` bytes at `at`: the state left by the previous packet is reset. What was set at
        the last extraction of each header (its size and the mark of being parsed) stays. */
    method StartPacket(at: nat, len: nat)
      requires Valid() && layout.lo <= at && at + len <= layout.hi
      modifies this
      ensures Parsing() && FlagTells() && StacksOk()
      ensures log == [] && data == extractPtr == at && pktLen == len && reorder == [] && !reordering && !dropped
      ensures current == seq(|stacks|, s => -1)
      ensures payloadSize == old(payloadSize)
      ensures forall h | 0 <= h < |headers| :: headers[h] == old(headers[h]).(pointer := Null)
    {
      hide Stored, Untouched, Offset, Layout.FitsIn, Layout.TmpEnd;
      data, pktLen := at, len;
      dropped := false;
      ResetHeaders();
      parsedSize := 0;
      extractPtr := data;
      reorder := [];
      log := [];
      FreshStored(layout, headers, data);
    }

    // -------------------------------------------------------------- parsing

    method ParserExtract(h: nat) returns (r: Extraction)
      requires Parsing() && h < |headers|
      modifies this`headers, this`parsedSize, this`extractPtr, this`log
      ensures Parsing()
      ensures var w := layout.widths[h];
              if old(parsedSize) + w <= pktLen then
                && r == Extracted(if skipped[h] then 0 else w)
                && headers == old(headers)[h := Found(layout.widths, skipped, h, old(extractPtr))]
                && log == old(log) + [Tile(h, old(extractPtr))]
                && extractPtr == old(extractPtr) + w
              else
                && r == AfterEndOfPacket
                && headers == old(headers)[h := old(headers)[h].(wasEnabled := !skipped[h])]
                && log == old(log) && extractPtr == old(extractPtr)
      ensures !skipped[h] && r.Extracted? && old(Untouched(headers, log)) ==> Untouched(headers, log)
      ensures r == AfterEndOfPacket && old(Untouched(headers, log)) ==> Untouched(headers, log)
    {
      ghost var hs := headers;
      headers := headers[h := headers[h].(wasEnabled := !skipped[h], size := layout.widths[h])];
      if parsedSize + headers[h].size > pktLen {
        RepointStored(layout, hs, log, data, extractPtr, h, headers[h]);
        return AfterEndOfPacket;
      }
      if skipped[h] {
        headers := headers[h := headers[h].(pointer := Null)];
        parsedSize := parsedSize + layout.widths[h];
      } else {
        headers := headers[h := headers[h].(pointer := At(extractPtr))];
        parsedSize := parsedSize + headers[h].size;
      }
      ExtractStored(layout, hs, log, data, extractPtr, h, headers[h]);
      if !skipped[h] && Untouched(hs, log) {
        ExtractUntouched(hs, log, h, headers[h], extractPtr);
      }
      log := log + [Tile(h, extractPtr)];
      extractPtr := extractPtr + headers[h].size;
      assert headers == hs[h := headers[h]];
      return Extracted(if skipped[h] then 0 else headers[h].size);
    }

    /** Extraction into a stack: the generated switch picks the extractor of the next header, which first
        advances the stack and then works on the header that has become current. */
    method ExtractIntoStack(s: nat) returns (r: Extraction)
      requires Parsing() && s < |stacks| && -1 <= current[s] < stacks[s].size
      modifies this`headers, this`parsedSize, this`extractPtr, this`log, this`current
      ensures Parsing()
      ensures r == OverStackSize <==> old(current[s]) + 1 == stacks[s].size
      ensures r == OverStackSize ==>
                current == old(current) && headers == old(headers) && log == old(log) && extractPtr == old(extractPtr)
      ensures r != OverStackSize ==>
                var h := stacks[s].start + old(current[s]) + 1;
                && h < |headers| && current == old(current)[s := old(current[s]) + 1]
                && (r.Extracted? <==> old(parsedSize) + layout.widths[h] <= pktLen)
                && (r.Extracted? ==> log == old(log) + [Tile(h, old(extractPtr))])
                && (r.Extracted? ==> extractPtr == old(extractPtr) + layout.widths[h])
                && (r.Extracted? ==> headers == old(headers)[h := Found(layout.widths, skipped, h, old(extractPtr))])
                && (r == AfterEndOfPacket ==> headers == old(headers)[h := old(headers)[h].(wasEnabled := !skipped[h])])
                && (r == AfterEndOfPacket ==> log == old(log) && extractPtr == old(extractPtr))
                && (!(skipped[h] && r.Extracted?) && old(Untouched(headers, log)) ==> Untouched(headers, log))
    {
      if current[s] + 1 >= stacks[s].size {
        return OverStackSize;
      }
      current := current[s := current[s] + 1];
      r := ParserExtract(stacks[s].start + current[s]);
    }

    /** One component of a parser state: extract, and drop the packet if that fails. */
    method ParserComponent(c: Component) returns (ok: bool)
      requires Parsing() && FlagTells() && StacksOk() && !dropped && Known(layout.widths, stacks, c)
      modifies this`headers, this`parsedSize, this`extractPtr, this`log, this`current, this`dropped, this`reordering
      ensures Parsing() && FlagTells() && dropped == !ok
      ensures ok <==> old(CanExtract(layout.widths, stacks, c, current, pktLen - parsedSize))
      ensures ok <==>
                match c
                case ExtractHeader(h) => old(parsedSize) + layout.widths[h] <= pktLen
                case ExtractNext(s) =>
                  && old(current[s]) + 1 < stacks[s].size
                  && old(parsedSize) + layout.widths[stacks[s].start + old(current[s]) + 1] <= pktLen
      ensures ok ==> StacksOk() && current == Advance(c, old(current))
      ensures ok ==> log == old(log) + [Tile(Target(stacks, c, old(current)), old(extractPtr))]
      ensures ok ==> extractPtr == old(extractPtr) + layout.widths[Target(stacks, c, old(current))]
      ensures ok ==> var h := Target(stacks, c, old(current));
                     headers == old(headers)[h := Found(layout.widths, skipped, h, old(extractPtr))]
      ensures ok ==> parsedSize == old(parsedSize) + layout.widths[Target(stacks, c, old(current))]
      ensures !ok ==> log == old(log) && extractPtr == old(extractPtr) && parsedSize == old(parsedSize)
      ensures reordering == (old(reordering) || (ok && exists h :: 0 <= h < |local| && local[h]))
    {
      hide Stored, Untouched, Picks, FirstOf, StacksApart;
      var r: Extraction;
      match c {
        case ExtractHeader(h) => r := ParserExtract(h);
        case ExtractNext(s) => r := ExtractIntoStack(s);
      }
      if !r.Extracted? {
        dropped := true;
        return false;
      }
      ghost var t := Tile(Target(stacks, c, old(current)), old(extractPtr));
      if c.ExtractNext? {
        NextFills(stacks, old(current), old(log), c.stk, t.addr);
      } else {
        PlainKeepsFilled(stacks, old(current), old(log), t);
      }
      if AnyLocal() {
        reordering := true;
      }
      return true;
    }

    /** The components of a state, up to the first that fails. */
    method ParserComponents(cs: seq<Component>) returns (ok: bool)
      requires Parsing() && FlagTells() && StacksOk() && !dropped
      requires AllKnown(layout.widths, stacks, cs)
      modifies this`headers, this`parsedSize, this`extractPtr, this`log, this`current, this`dropped, this`reordering
      ensures Parsing() && FlagTells() && dropped == !ok && old(parsedSize) <= parsedSize
      ensures var r := old(Resolve(layout.widths, stacks, cs, current, pktLen - parsedSize));
              && (ok <==> r.Some?)
              && (ok ==> StacksOk() && Headers(log) == old(Headers(log)) + r.value.headers)
              && (ok ==> current == r.value.current && pktLen - parsedSize == r.value.room)
              && (ok ==> headers == Laid(layout.widths, skipped, old(headers), r.value.headers, old(extractPtr)))
              && (ok ==> extractPtr == old(extractPtr) + Span(layout.widths, r.value.headers))
      ensures ok && ConsumesAny(layout.widths, stacks, cs) ==> old(parsedSize) < parsedSize
      ensures |old(log)| <= |log|
      ensures reordering == (old(reordering) || (|log| > |old(log)| && exists h :: 0 <= h < |local| && local[h]))
    {
      hide *;
      StacksFit();
      if cs == [] {
        ResolveNothing(layout.widths, stacks, current, pktLen - parsedSize);
        LaidNothing(layout.widths, skipped, headers, extractPtr);
        return true;
      }
      var c, rest := cs[0], cs[1..];
      FirstKnown(layout.widths, stacks, cs);
      ResolveFirst(layout.widths, stacks, cs, current, pktLen - parsedSize, log, extractPtr);
      ok := ParserComponent(c);
      if !ok {
        return;
      }
      ghost var h, hs, at := Target(stacks, c, old(current)), old(headers), old(extractPtr);
      ghost var r := Resolve(layout.widths, stacks, rest, current, pktLen - parsedSize);
      ok := ParserComponents(rest);
      if ok { LaidFirst(layout.widths, skipped, hs, h, r.value.headers, at); }
    }

    /** Runs the parser from state `s`. The run always ends, and `Runs` determines its path and outcome. It
        extracts exactly what the states on the path say; it is dropped at a reject state or at the first
        extraction that fails. If it accepts, the rest of the packet is the payload. If a select expression has
        no case for the headers at hand, and only then, the run just ends: the packet is neither dropped nor
        given a payload size. */
    method RunParser(p: Parser, s: nat, ghost rank: seq<nat>) returns (o: Outcome, ghost path: seq<nat>)
      requires Parsing() && FlagTells() && StacksOk() && !dropped
      requires p.WellFormed(layout.widths, stacks, rank) && s < |p.states|
      modifies this`headers, this`parsedSize, this`extractPtr, this`log, this`current, this`dropped, this`reordering,
               this`payloadSize
      ensures Parsing() && FlagTells() && dropped == o.Dropped? && old(parsedSize) <= parsedSize
      ensures OfStates(p, path) && path[0] == s
      ensures old(Prog().Accepts(Here()) && p.Runs(Prog(), mem[..], path, Here(), o))
      ensures var r := old(p.Extracts(layout.widths, stacks, path, current, pktLen - parsedSize));
              && (r.None? ==> o.Dropped?)
              && (r.Some? ==> StacksOk() && Headers(log) == old(Headers(log)) + r.value.headers)
              && (r.Some? ==> current == r.value.current && pktLen - parsedSize == r.value.room)
              && (r.Some? ==> headers == Laid(layout.widths, skipped, old(headers), r.value.headers, old(extractPtr)))
              && (var last := path[|path| - 1];
                  o.NoCaseMatched? <==>
                    && r.Some? && p.states[last].State? && p.states[last].next.Select?
                    && p.select(last, mem[..], headers) == None)
      ensures payloadSize == if o.Accepted? then pktLen - parsedSize else old(payloadSize)
      ensures |old(log)| <= |log|
      ensures reordering == (old(reordering) || (|log| > |old(log)| && exists h :: 0 <= h < |local| && local[h]))
      decreases pktLen - parsedSize, if s < |rank| then rank[s] else 0
    {
      hide Stored, Untouched, LastPlace, Picks, StacksFilled, AllKnown, Resolve, ConsumesAny, Parser.Extracts,
           Parser.Runs, Prefixed, Headers, AnyLocal, Laid, Span;
      StacksFit();
      ghost var at, log0, widths := Here(), log, layout.widths;
      path := [s];
      ExtractsOne(p, widths, stacks, s, at.current, at.room);
      LaidNothing(widths, skipped, headers, extractPtr);
      match p.states[s] {
        case Accept =>
          payloadSize := pktLen - (extractPtr - data);
          NothingMore(Headers(log));
          RunStops(p, Prog(), mem[..], s, at, Accepted);
          return Accepted, path;
        case Reject =>
          dropped := true;
          NothingMore(Headers(log));
          RunStops(p, Prog(), mem[..], s, at, Dropped);
          return Dropped, path;
        case State(cs, next) =>
          var ok := ParserComponents(cs);
          if !ok {
            RunStops(p, Prog(), mem[..], s, at, Dropped);
            return Dropped, path;
          }
          ghost var q := Resolve(widths, stacks, cs, at.current, at.room).value;
          assert Here() == Prog().After(at, q);
          var t: nat;
          match next {
            case Goto(u) =>
              t := u;
            case Select =>
              var choice := p.select(s, mem[..], headers);
              if choice.None? {
                RunStops(p, Prog(), mem[..], s, at, NoCaseMatched);
                return NoCaseMatched, path;
              }
              t := choice.value;
          }
          assert p.Successor(s, mem[..], headers) == Some(t) && p.Leads(s, t);
          ghost var rest;
          o, rest := RunParser(p, t, rank);
          path := [s] + rest;
          RunContinues(p, Prog(), mem[..], s, rest, at, o, Headers(log0));
      }
    }

    // -------------------------------------------------------------- header operations

    /** Which headers differ from before in validity, pointer or bytes: at most `h`. */
    twostate predicate OthersKept(h: nat)
      requires old(Parsing()) && Parsing() && |headers| == old(|headers|)
      reads this, mem
    {
      forall g | 0 <= g < |headers| && g != h :: headers[g] == old(headers[g]) && Content(g) == old(Content(g))
    }

    method ActivateHdr(h: nat)
      requires Parsing() && h < |headers|
      modifies this`headers, this`reordering
      ensures Parsing() && reordering && OthersKept(h)
      ensures headers[h] == old(headers[h]).(pointer := At(layout.Slot(h)))
    {
      RepointStored(layout, headers, log, data, extractPtr, h, headers[h].(pointer := At(layout.Slot(h))));
      headers := headers[h := headers[h].(pointer := At(layout.Slot(h)))];
      reordering := true;
    }

    method DeactivateHdr(h: nat)
      requires Parsing() && h < |headers|
      modifies this`headers, this`reordering
      ensures Parsing() && reordering && OthersKept(h)
      ensures headers[h] == old(headers[h]).(pointer := Null)
    {
      RepointStored(layout, headers, log, data, extractPtr, h, headers[h].(pointer := Null));
      headers := headers[h := headers[h].(pointer := Null)];
      reordering := true;
    }

    method SetHdrValid(h: nat)
      requires Parsing() && FlagTells() && h < |headers|
      modifies this`headers, this`reordering
      ensures Parsing() && FlagTells() && OthersKept(h) && headers[h].pointer.At?
      ensures old(headers[h].pointer.At?) ==> headers == old(headers) && reordering == old(reordering)
      ensures old(headers[h].pointer.Null?) ==>
                headers == old(headers)[h := old(headers[h]).(pointer := At(layout.Slot(h)))] && reordering
    {
      if headers[h].pointer.Null? {
        ActivateHdr(h);
        reordering := true;
      }
    }

    method SetHdrInvalid(h: nat)
      requires Parsing() && FlagTells() && h < |headers|
      modifies this`headers, this`reordering
      ensures Parsing() && FlagTells() && OthersKept(h) && headers[h].pointer.Null?
      ensures old(headers[h].pointer.Null?) ==> headers == old(headers) && reordering == old(reordering)
      ensures old(headers[h].pointer.At?) ==> headers == old(headers)[h := old(headers[h]).(pointer := Null)] && reordering
    {
      if headers[h].pointer.At? {
        RepointStored(layout, headers, log, data, extractPtr, h, headers[h].(pointer := Null));
        headers := headers[h := headers[h].(pointer := Null)];
        reordering := true;
      }
    }

    /** Assignment between headers of the same type: the destination gets the source's bytes and validity;
        no other header is touched. */
    method DoAssignment(dst: nat, src: nat)
      requires Parsing() && FlagTells() && dst < |headers| && src < |headers|
      requires layout.widths[dst] == layout.widths[src]
      modifies this`headers, this`reordering, mem
      ensures Parsing() && FlagTells() && OthersKept(dst)
      ensures headers[dst].pointer.At? == old(headers[src].pointer.At?)
      ensures old(headers[src].pointer.At?) ==> Content(dst) == old(Content(src))
      ensures reordering == (old(reordering) || !old(headers[src].pointer.At? && headers[dst].pointer.At?))
    {
      if headers[src].pointer.At? {
        if headers[dst].pointer.Null? {
          ActivateHdr(dst);
        }
        AllInMemory(layout, headers, log, data, extractPtr, mem.Length);
        AssignCopies(layout, mem[..], headers, log, data, extractPtr, dst, src);
        MemMove(mem, headers[dst].pointer.addr, headers[src].pointer.addr, layout.widths[src]);
      } else {
        DeactivateHdr(dst);
      }
    }

    // -------------------------------------------------------------- deparsing

    ghost function EmittedHeaders(): seq<HeaderDesc>
      requires Valid()
      reads this
    {
      Emitted(headers, reorder)
    }

    ghost function EmittedLength(): nat
      requires Valid()
      reads this
    {
      TotalLength(Emitted(headers, reorder), 0, |reorder|)
    }

    lemma EverythingInMemory()
      requires Parsing()
      ensures Sized(layout, headers, mem.Length) && InMemory(EmittedHeaders(), mem.Length)
    {
      AllInMemory(layout, headers, log, data, extractPtr, mem.Length);
      EmittedInMemory(headers, reorder, mem.Length);
    }

    method Emit(h: nat)
      requires Parsing() && h < |headers|
      modifies this`reorder
      ensures Parsing() && reorder == old(reorder) + [h]
    {
      reorder := reorder + [h];
    }

    method StoreHeadersForDeparse()
      requires Valid() && Sized(layout, headers, mem.Length)
      modifies this`deparseSize, mem
      ensures mem[..] == old(Stash(layout, mem[..], headers, reorder, 0))
      ensures deparseSize == EmittedLength()
    {
      hide Stored, Copy, Offset, StacksApart, Layout.FitsIn;
      deparseSize := 0;
      ghost var all := Stash(layout, mem[..], headers, reorder, 0);
      for i := 0 to |reorder|
        invariant Valid() && Sized(layout, headers, mem.Length)
        invariant Stash(layout, mem[..], headers, reorder, i) == all
        invariant deparseSize + TotalLength(Emitted(headers, reorder), i, |reorder|) == EmittedLength()
      {
        var hdr := headers[reorder[i]];
        if hdr.pointer.Null? {
          continue;
        }
        if hdr.wasEnabled {
          SlotFits(layout, reorder[i], mem.Length);
          assert hdr.Within(mem.Length);
          MemMove(mem, layout.Slot(reorder[i]), hdr.pointer.addr, hdr.size);
        }
        deparseSize := deparseSize + hdr.size;
      }
    }

    /** Gives the packet its new size by moving its start; the end stays. The program exits if the packet
        buffer has not enough headroom. */
    method ResizePacketOnDeparse() returns (exited: bool)
      requires Valid()
      modifies this`data, this`pktLen
      ensures exited <==> deparseSize + payloadSize > old(pktLen) + (old(data) - layout.lo)
      ensures !exited ==> Valid() && pktLen == deparseSize + payloadSize && data + pktLen == old(data) + old(pktLen)
      ensures exited ==> data == old(data) && pktLen == old(pktLen)
    {
      var oldSize := pktLen;
      var newSize := deparseSize + payloadSize;
      if newSize == oldSize {
        return false;
      }
      var lenChange := newSize - oldSize;
      if lenChange > 0 {
        if data - lenChange < layout.lo {
          return true;
        }
        data := data - lenChange;
      } else {
        data := data + -lenChange;
      }
      pktLen := newSize;
      return false;
    }

    /** The valid headers from emission index `start` on that lie one after the other: how far they go, and
        how many bytes they take. */
    method GatherRun(start: nat) returns (idx: nat, copySize: nat)
      requires Valid() && start < |reorder| && EmittedHeaders()[start].pointer.At?
      ensures idx == RunEnd(EmittedHeaders(), start) && copySize == TotalLength(EmittedHeaders(), start, idx)
      ensures WholeRun(EmittedHeaders(), start, idx)
    {
      ghost var es := EmittedHeaders();
      var hdr := headers[reorder[start]];
      copySize := hdr.size;
      idx := start + 1;
      while idx < |reorder|
        invariant start < idx <= |reorder|
        invariant hdr == es[idx - 1] && hdr.pointer.At?
        invariant RunEnd(es, idx - 1) == RunEnd(es, start)
        invariant copySize == TotalLength(es, start, idx)
      {
        var prevHdr := hdr;
        hdr := headers[reorder[idx]];
        if hdr.pointer != At(prevHdr.pointer.addr + prevHdr.size) {
          break;
        }
        TotalLengthSplit(es, start, idx, idx + 1);
        copySize := copySize + hdr.size;
        idx := idx + 1;
      }
      RunMaximal(es, start);
    }

    /** Headers that lie one after the other are copied in one go. */
    method CopyDeparseContents()
      requires Valid() && InMemory(EmittedHeaders(), mem.Length) && data + EmittedLength() <= mem.Length
      modifies mem
      ensures BlocksInMemory(Blocks(EmittedHeaders(), 0), mem.Length)
      ensures data + BlockLength(Blocks(EmittedHeaders(), 0)) <= mem.Length
      ensures mem[..] == CopyBlocks(old(mem[..]), Blocks(EmittedHeaders(), 0), data)
    {
      hide Stored, NoClobber, Contents, BlockContents, CopyBlocks, BlockLength, BlocksInMemory, Copy, Offset,
           StacksApart, Layout.FitsIn, RunEnd;
      var dst: nat, idx: nat := data, 0;
      ghost var es := EmittedHeaders();
      BlocksHoldContents(mem[..], es, 0);
      ghost var all := CopyBlocks(mem[..], Blocks(es, 0), dst);
      while idx < |reorder|
        invariant idx <= |reorder|
        invariant dst + TotalLength(es, idx, |es|) == data + EmittedLength()
        invariant Hold(mem[..], Blocks(es, idx), es, idx)
        invariant CopyBlocks(mem[..], Blocks(es, idx), dst) == all
      {
        var hdr := headers[reorder[idx]];
        if hdr.pointer.Null? {
          idx := idx + 1;
          BlocksHoldContents(mem[..], es, idx);
          continue;
        }
        ghost var first, before := idx, mem[..];
        var copySize: nat;
        idx, copySize := GatherRun(idx);
        BlockStep(before, es, first, dst);
        MemMove(mem, dst, hdr.pointer.addr, copySize);
        dst := dst + copySize;
        BlocksHoldContents(mem[..], es, idx);
      }
      NothingLeft(mem[..], es, dst);
    }

    /** The deparser's result can be delivered without overwriting anything that is still to be copied. */
    ghost predicate Clear(dst: nat)
      requires Valid()
      reads this
    {
      NoClobber(Blocks(EmittedHeaders(), 0), dst)
    }

    /** The emitted valid headers one after the other, then the last `payloadSize` bytes of the packet. */
    ghost function Wanted(): seq<Byte>
      requires Parsing() && payloadSize <= data + pktLen
      reads this, mem
    {
      EverythingInMemory();
      Contents(mem[..], EmittedHeaders(), 0, |reorder|) + mem[data + pktLen - payloadSize..data + pktLen]
    }

    /** Where the packet has to start so that the payload can stay where it is. */
    ghost function NewStart(): int
      requires Valid()
      reads this
    {
      data + pktLen - payloadSize - EmittedLength()
    }

    /** The three steps of deparsing. Without enough headroom the program exits. */
    method StoreResizeCopy() returns (exited: bool)
      requires Parsing()
      modifies this`data, this`pktLen, this`deparseSize, mem
      ensures exited <==> old(NewStart()) < layout.lo
      ensures !exited ==>
                && Valid() && data == old(NewStart()) && data + pktLen == old(data) + old(pktLen)
                && old(payloadSize <= data + pktLen && Ready(layout, mem[..], headers, reorder, NewStart()))
                && mem[..] == old(Deparsed(layout, mem[..], headers, reorder, NewStart()))
    {
      EverythingInMemory();
      hide Stored, Stash, Blocks, CopyBlocks, BlockLength, BlocksInMemory, TotalLength, Emitted, InMemory, LastPlace,
           Offset, RunEnd;
      StoreHeadersForDeparse();
      exited := ResizePacketOnDeparse();
      if exited {
        return;
      }
      CopyDeparseContents();
    }

    /** What the three steps make of memory is the wanted packet, if nothing is overwritten too early. */
    lemma WantedDelivered()
      requires Parsing() && NewStart() >= layout.lo && Clear(NewStart())
      ensures payloadSize <= data + pktLen && Ready(layout, mem[..], headers, reorder, NewStart())
      ensures Deparsed(layout, mem[..], headers, reorder, NewStart())[NewStart()..data + pktLen] == Wanted()
    {
      EverythingInMemory();
      hide Stored, Stash, Blocks, CopyBlocks, BlockLength, BlocksInMemory, TotalLength, Emitted, InMemory, LastPlace,
           Offset, RunEnd, NoClobber, Contents, Deparsed, Sized, StacksApart, Layout.FitsIn, Indices;
      DeparseDelivers(layout, mem[..], headers, reorder, log, data, extractPtr, NewStart(),
                      data + pktLen - payloadSize, data + pktLen);
    }

    /** Deparsing, once per packet. */
    method DeparsePacket() returns (exited: bool)
      requires Parsing()
      modifies this`data, this`pktLen, this`deparseSize, mem
      ensures old(dropped || !reordering) ==>
                !exited && Valid() && data == old(data) && pktLen == old(pktLen) && mem[..] == old(mem[..])
      ensures old(!dropped && reordering) ==>
                && (exited <==> old(NewStart()) < layout.lo)
                && (!exited ==>
                      && Valid() && data == old(NewStart()) && data + pktLen == old(data) + old(pktLen)
                      && old(Ready(layout, mem[..], headers, reorder, NewStart()))
                      && mem[..] == old(Deparsed(layout, mem[..], headers, reorder, NewStart()))
                      && (old(Clear(NewStart()) || OneStretch(EmittedHeaders())) ==> Packet() == old(Wanted())))
    {
      if reordering {
        if dropped {
          return false;
        }
        hide Parsing, Deparsed, Ready, OneStretch, Blocks, NoClobber;
        if NewStart() >= layout.lo && OneStretch(EmittedHeaders()) {
          StretchDoesNotClobber(EmittedHeaders(), NewStart());
        }
        if NewStart() >= layout.lo && Clear(NewStart()) {
          WantedDelivered();
        }
        exited := StoreResizeCopy();
      } else {
        return false;
      }
    }

    /** If headers were only added, the packet comes out right whatever the placement. */
    lemma AdditionsAreClear()
      requires Parsing() && payloadSize == pktLen - parsedSize && NewStart() >= layout.lo
      requires EmitsAll(layout, headers, reorder, 0, log, 0)
      ensures Clear(NewStart())
    {
      EverythingInMemory();
      hide Stored, Stash, Blocks, CopyBlocks, TotalLength, Emitted, InMemory, LastPlace, Offset, NoClobber, Contents,
           Deparsed, EmitsAll;
      AdditionsDeliver(layout, mem[..], headers, reorder, log, data, extractPtr, NewStart(), data + pktLen);
    }

    /** The fast path refines the slow one: while the flag is clear, the three steps would neither move nor
        resize the packet nor change a byte of it, if the extracted headers are emitted in order. */
    lemma FastPath()
      requires Parsing() && FlagTells() && !reordering && payloadSize == pktLen - parsedSize
      requires Once(log) && InOrder(headers, reorder, 0, log, 0)
      ensures NewStart() == data && Ready(layout, mem[..], headers, reorder, data)
      ensures Deparsed(layout, mem[..], headers, reorder, data)[data..data + pktLen] == Packet()
    {
      EverythingInMemory();
      hide Stored, Stash, Blocks, CopyBlocks, TotalLength, Emitted, InMemory, LastPlace, Offset, Once, InOrder,
           Untouched, Deparsed;
      FastPathIsSlowPath(layout, mem[..], headers, reorder, log, data, extractPtr, data + pktLen);
    }
  }

  lemma {:induction false} NothingLeft(mem: seq<Byte>, es: seq<HeaderDesc>, dst: nat)
    requires dst <= |mem|
    ensures CopyBlocks(mem, Blocks(es, |es|), dst) == mem
  {
  }

  /** Copying the run at index `i` is the first of the copies from `i` on. */
  lemma {:induction false} BlockStep(mem: seq<Byte>, es: seq<HeaderDesc>, i: nat, dst: nat)
    requires i < |es| && es[i].pointer.At? && InMemory(es, |mem|)
    requires dst + TotalLength(es, i, |es|) <= |mem|
    ensures var a, e := es[i].pointer.addr, RunEnd(es, i);
            var n := TotalLength(es, i, e);
            && a + n <= |mem| && TotalLength(es, i, |es|) == n + TotalLength(es, e, |es|)
            && BlocksInMemory(Blocks(es, i), |mem|) && BlockLength(Blocks(es, i)) == TotalLength(es, i, |es|)
            && BlocksInMemory(Blocks(es, e), |mem|) && BlockLength(Blocks(es, e)) == TotalLength(es, e, |es|)
            && CopyBlocks(mem, Blocks(es, i), dst) == CopyBlocks(Copy(mem, dst, a, n), Blocks(es, e), dst + n)
  {
    hide Contents, BlockContents, RunEnd, Copy, TotalLength;
    RunThenRest(mem, es, i);
    BlocksHoldContents(mem, es, i);
    BlocksHoldContents(mem, es, RunEnd(es, i));
    assert Blocks(es, i)[1..] == Blocks(es, RunEnd(es, i));
  }
}
