/** Packets driven through the generated functions, right ones and wrong ones, down to the bytes that leave. */
module Scenarios {
  import opened Sequences
  import opened Options
  import opened Memory
  import opened Deparse
  import opened Storage
  import opened Emission
  import opened Exactness
  import opened Packet

  // ---------------------------------------------------------------- a select expression without a matching case

  /** One header of one byte; the select expression has a case for the value 1 only. */
  function OneCase(): Parser {
    Parser([State([ExtractHeader(0)], Select), Accept],
           (s: nat, mem: seq<Byte>, hs: seq<HeaderDesc>) =>
             if |hs| == 1 && hs[0].pointer.At? && hs[0].pointer.addr < |mem| && mem[hs[0].pointer.addr] == 1 then Some(1)
             else None)
  }

  function OneHeader(): Program { Program([1], [false], []) }

  lemma {:induction false} OneCaseFormed()
    ensures OneCase().WellFormed([1], [], [1, 0])
  {
    assert OneCase().states[0] == State([ExtractHeader(0)], Select) && OneCase().states[1] == Accept;
    assert [ExtractHeader(0)][1..] == [];
    assert Known([1], [], ExtractHeader(0));
    assert AllKnown([1], [], []);
  }

  lemma {:induction false} OneExtraction(room: int)
    requires room >= 1
    ensures AllKnown([1], [], [ExtractHeader(0)])
    ensures Resolve([1], [], [ExtractHeader(0)], [], room) == Some(Progress([0], [], room - 1))
    ensures Span([1], [0]) == 1
  {
    assert [ExtractHeader(0)][1..] == [] && AllKnown([1], [], []);
    assert Resolve([1], [], [], [], room - 1) == Some(Progress([], [], room - 1));
    assert Advance(ExtractHeader(0), []) == [] && [0] + [] == [0];
    assert Span([1], []) == 0;
  }

  /** The header is followed if it is 1, and otherwise the parser just stops. */
  lemma {:induction false} OneCaseRuns(mem: seq<Byte>, path: seq<nat>, hs: seq<HeaderDesc>, a: nat, room: int,
                                       o: Outcome)
    requires |hs| == 1 && a < |mem| && room >= 1 && OneCase().KnowsAll([1], [])
    requires OneCase().Runs(OneHeader(), mem, path, Position(hs, [], a, room), o) && path[0] == 0
    ensures mem[a] == 1 ==> path == [0, 1] && o == Accepted
    ensures mem[a] != 1 ==> path == [0] && o == NoCaseMatched
    ensures OfStates(OneCase(), path)
            && OneCase().Extracts([1], [], path, [], room) == Some(Progress([0], [], room - 1))
  {
    var at := Position(hs, [], a, room);
    OneExtraction(room);
    var q := Progress([0], [], room - 1);
    var after := OneHeader().After(at, q);
    OneLaid(hs, a);
    ExtractsOne(OneCase(), [1], [], 0, [], room);
    if mem[a] == 1 {
      assert path == [0] + path[1..];
      assert OneCase().Runs(OneHeader(), mem, path[1..], after, o);
      assert path[1..] == [1];
      ExtractsMore(OneCase(), [1], [], 0, [1], [], room);
      ExtractsOne(OneCase(), [1], [], 1, [], room - 1);
      assert [0] + [] == [0];
    } else {
      assert path == [0];
    }
  }

  /** A packet of `len` bytes at `at` arrives. */
  method Receive(pd: PacketDescriptor, at: nat, len: nat) returns (o: Outcome)
    requires pd.Valid() && pd.Prog() == OneHeader() && pd.layout.lo <= at && at + len <= pd.layout.hi && len >= 1
    modifies pd
    ensures pd.Parsing() && pd.FlagTells() && !pd.dropped && pd.reorder == []
    ensures pd.data == at && pd.pktLen == len && pd.parsedSize == 1 && pd.headers[0].pointer == At(at)
    ensures if pd.mem[at] == 1 then o == Accepted && pd.payloadSize == len - 1
            else o == NoCaseMatched && pd.payloadSize == old(pd.payloadSize)
  {
    hide Resolve, Parser.Runs, Parser.Extracts, Stored, Untouched, StacksFilled, Parser.WellFormed, Parser.KnowsAll,
         Laid, OneCase;
    pd.StartPacket(at, len);
    OneCaseFormed();
    assert pd.current == [];
    ghost var path;
    ghost var hs := pd.headers;
    assert pd.Here() == Position(hs, [], at, len);
    o, path := pd.RunParser(OneCase(), 0, [1, 0]);
    OneCaseRuns(pd.mem[..], path, hs, at, len, o);
    OneLaid(hs, at);
  }

  lemma {:induction false} OneLaid(hs: seq<HeaderDesc>, a: nat)
    requires |hs| == 1
    ensures Laid([1], [false], hs, [0], a) == hs[0 := Found([1], [false], 0, a)]
  {
    assert [0] + [] == [0];
    LaidFirst([1], [false], hs, 0, [], a);
    LaidNothing([1], [false], hs[0 := Found([1], [false], 0, a)], a + 1);
  }

  /** The first packet is accepted with seven bytes of payload. The second has no matching case: it is neither
      dropped nor given a payload size, and with the size of the first it leaves as seven bytes of which the
      first three lie in front of it, although only three bytes of it were left to parse. */
  method MissedCase() returns (pd: PacketDescriptor, first: Outcome, second: Outcome, left: nat)
    ensures fresh(pd) && first == Accepted && second == NoCaseMatched && left == 3
    ensures !pd.dropped && pd.data == 17 && pd.pktLen == 7
  {
    hide Stored, Untouched, StacksFilled, Deparsed, Ready, Blocks, NoClobber, OneStretch, Contents, OneCase;
    var mem := new Byte[61](i => if i == 0 then 1 else 0);
    var layout := Layout([1], 60, 0, 50);
    assert Offset(layout.widths, 0) == 0 && Offset(layout.widths, 1) == 1;
    pd := new PacketDescriptor(layout, mem, [false], [false], []);
    first := Receive(pd, 0, 8);
    second := Receive(pd, 20, 4);
    left := pd.pktLen - pd.parsedSize;
    pd.SetHdrInvalid(0);
    assert pd.EmittedLength() == 0;
    var exited := pd.DeparsePacket();
  }

  // ---------------------------------------------------------------- packets with three headers

  /** Headers 0, 2 and 3 follow one another in the packet. */
  function ThreeHeaders(): Parser {
    Parser([State([ExtractHeader(0), ExtractHeader(2), ExtractHeader(3)], Goto(1)), Accept],
           (s: nat, mem: seq<Byte>, hs: seq<HeaderDesc>) => None)
  }

  /** Three headers of one byte, and one of `w` bytes. */
  function Four(w: nat): Layout { Layout([1, 1, 1, w], 99, 0, 50) }

  function FourHeaders(w: nat): Program { Program([1, 1, 1, w], [false, false, false, false], []) }

  lemma {:induction false} FourSlots(w: nat)
    ensures var l := Four(w);
            l.Slot(0) == 99 && l.Slot(1) == 100 && l.Slot(2) == 101 && l.Slot(3) == 102 && l.TmpEnd() == 102 + w
  {
    var v := Four(w).widths;
    assert Offset(v, 0) == 0 && Offset(v, 1) == 1;
    assert Offset(v, 2) == 2 && Offset(v, 3) == 3;
    assert Offset(v, 4) == 3 + w;
  }

  lemma {:induction false} ThreeHeadersFormed(w: nat)
    requires w > 0
    ensures ThreeHeaders().WellFormed([1, 1, 1, w], [], [1, 0])
    ensures AllKnown([1, 1, 1, w], [], [ExtractHeader(0), ExtractHeader(2), ExtractHeader(3)])
  {
    assert ThreeHeaders().states[1] == Accept;
    var c, d, e := ExtractHeader(0), ExtractHeader(2), ExtractHeader(3);
    assert [c, d, e][1..] == [d, e] && [d, e][1..] == [e] && [e][1..] == [];
    assert AllKnown([1, 1, 1, w], [], []);
    assert AllKnown([1, 1, 1, w], [], [e]);
    assert AllKnown([1, 1, 1, w], [], [d, e]);
  }

  lemma {:induction false} ThreeExtractions(w: nat)
    requires w > 0
    ensures AllKnown([1, 1, 1, w], [], [ExtractHeader(0), ExtractHeader(2), ExtractHeader(3)])
    ensures Resolve([1, 1, 1, w], [], [ExtractHeader(0), ExtractHeader(2), ExtractHeader(3)], [], 2 + w)
         == Some(Progress([0, 2, 3], [], 0))
  {
    hide AllKnown;
    ThreeHeadersFormed(w);
    var v := [1, 1, 1, w];
    var c, d, e := ExtractHeader(0), ExtractHeader(2), ExtractHeader(3);
    assert [c, d, e][1..] == [d, e] && [d, e][1..] == [e] && [e][1..] == [];
    FirstKnown(v, [], [c, d, e]);
    FirstKnown(v, [], [d, e]);
    FirstKnown(v, [], [e]);
    assert [3] + [] == [3] && [2] + [3] == [2, 3] && [0] + [2, 3] == [0, 2, 3];
    assert Resolve(v, [], [], [], 0) == Some(Progress([], [], 0));
    assert Resolve(v, [], [e], [], w) == Some(Progress([3], [], 0));
    assert Resolve(v, [], [d, e], [], 1 + w) == Some(Progress([2, 3], [], 0));
  }

  lemma {:induction false} ThreeHeadersRun(w: nat, mem: seq<Byte>, path: seq<nat>, hs: seq<HeaderDesc>, a: nat,
                                           o: Outcome)
    requires |hs| == 4 && w > 0 && ThreeHeaders().KnowsAll([1, 1, 1, w], [])
    requires ThreeHeaders().Runs(FourHeaders(w), mem, path, Position(hs, [], a, 2 + w), o) && path[0] == 0
    ensures path == [0, 1] && o == Accepted
    ensures ThreeHeaders().Extracts([1, 1, 1, w], [], path, [], 2 + w) == Some(Progress([0, 2, 3], [], 0))
  {
    hide Resolve, Laid, Span;
    var v, q := [1, 1, 1, w], Progress([0, 2, 3], [], 0);
    ThreeExtractions(w);
    var after := FourHeaders(w).After(Position(hs, [], a, 2 + w), q);
    assert path == [0] + path[1..];
    assert ThreeHeaders().Runs(FourHeaders(w), mem, path[1..], after, o);
    assert path[1..] == [1];
    ExtractsMore(ThreeHeaders(), v, [], 0, [1], [], 2 + w);
    ExtractsOne(ThreeHeaders(), v, [], 1, [], 0);
    assert q.headers + [] == q.headers;
  }

  lemma {:induction false} ThreeLaid(w: nat, hs: seq<HeaderDesc>)
    requires |hs| == 4
    ensures Laid([1, 1, 1, w], [false, false, false, false], hs, [0, 2, 3], 10)
         == [HeaderDesc(At(10), 1, true), hs[1], HeaderDesc(At(11), 1, true), HeaderDesc(At(12), w, true)]
  {
    hide Laid;
    var v, k := [1, 1, 1, w], [false, false, false, false];
    var h1 := hs[0 := Found(v, k, 0, 10)];
    var h2 := h1[2 := Found(v, k, 2, 11)];
    assert [3] + [] == [3] && [2] + [3] == [2, 3] && [0] + [2, 3] == [0, 2, 3];
    LaidFirst(v, k, hs, 0, [2, 3], 10);
    LaidFirst(v, k, h1, 2, [3], 11);
    LaidFirst(v, k, h2, 3, [], 12);
    LaidNothing(v, k, h2[3 := Found(v, k, 3, 12)], 12 + w);
  }

  lemma {:induction false} ThreeTiles(w: nat, log: seq<Tile>, end: nat)
    requires Headers(log) == [0, 2, 3] && Tiles([1, 1, 1, w], log, 10, end)
    ensures log == [Tile(0, 10), Tile(2, 11), Tile(3, 12)]
  {
    assert |log| == 3;
    assert forall i | 0 <= i < 3 :: log[i].hdr == Headers(log)[i];
    assert TileAt([1, 1, 1, w], log, 0, end) && TileAt([1, 1, 1, w], log, 1, end);
  }

  /** A packet of three headers and nothing else arrives at 10. */
  method ReceiveThree(pd: PacketDescriptor, ghost w: nat)
    requires pd.Valid() && pd.Prog() == FourHeaders(w) && pd.layout == Four(w) && 0 < w <= 38
    modifies pd
    ensures pd.Parsing() && pd.FlagTells() && !pd.dropped && pd.reorder == []
    ensures pd.data == 10 && pd.pktLen == pd.parsedSize == 2 + w && pd.payloadSize == 0 && pd.reordering == pd.AnyLocal()
    ensures pd.log == [Tile(0, 10), Tile(2, 11), Tile(3, 12)]
    ensures pd.headers == [HeaderDesc(At(10), 1, true), old(pd.headers[1]).(pointer := Null),
                           HeaderDesc(At(11), 1, true), HeaderDesc(At(12), w, true)]
  {
    hide Resolve, Parser.Runs, Parser.Extracts, Untouched, StacksFilled, Parser.WellFormed, Parser.KnowsAll,
         Laid, ThreeHeaders, Tiles;
    pd.StartPacket(10, 2 + pd.layout.widths[3]);
    ThreeHeadersFormed(w);
    assert pd.current == [];
    ghost var path;
    ghost var hs := pd.headers;
    assert pd.Here() == Position(hs, [], 10, 2 + w);
    var o: Outcome;
    o, path := pd.RunParser(ThreeHeaders(), 0, [1, 0]);
    ThreeHeadersRun(w, pd.mem[..], path, hs, 10, o);
    ThreeLaid(w, hs);
    assert Headers(pd.log) == [0, 2, 3];
    ThreeTiles(w, pd.log, pd.extractPtr);
  }

  /** A descriptor for such a program, in a memory that holds 1, 2 and 3 from address 10 on and 9 in the slot of
      header 1. */
  method Prepared() returns (pd: PacketDescriptor)
    ensures fresh(pd) && fresh(pd.mem) && pd.Parsing() && pd.FlagTells() && !pd.dropped && pd.reorder == []
    ensures pd.layout == Four(1) && pd.mem[..] == Memory123() && !pd.reordering
    ensures pd.data == 10 && pd.pktLen == pd.parsedSize == 3 && pd.payloadSize == 0
    ensures pd.log == [Tile(0, 10), Tile(2, 11), Tile(3, 12)] && pd.headers == Three123()
  {
    hide Stored, Untouched, StacksFilled;
    var mem := new Byte[103](i => if 10 <= i < 13 then i - 9 else if i == 100 then 9 else 0);
    FourSlots(1);
    pd := new PacketDescriptor(Four(1), mem, [false, false, false, false], [false, false, false, false], []);
    ReceiveThree(pd, 1);
    assert mem[..] == Memory123();
  }

  function Memory123(): seq<Byte> {
    seq(103, i => if 10 <= i < 13 then i - 9 else if i == 100 then 9 else 0)
  }

  function Three123(): seq<HeaderDesc> {
    [HeaderDesc(At(10), 1, true), HeaderDesc(Null, 1, false), HeaderDesc(At(11), 1, true), HeaderDesc(At(12), 1, true)]
  }

  // ---------------------------------------------------------------- the last header removed

  /** Two entries that lie one after the other leave as one block. */
  lemma {:induction false} TwoTogether()
    ensures var es := Emitted(Three123()[3 := HeaderDesc(Null, 1, true)], [0, 2]);
            Stretch(es, 0, 2) && InMemory(es, 103) && TotalLength(es, 0, 2) == 2 && Contents(Memory123(), es, 0, 2) == [1, 2]
  {
    var es := Emitted(Three123()[3 := HeaderDesc(Null, 1, true)], [0, 2]);
    var mem := Memory123();
    assert es == [HeaderDesc(At(10), 1, true), HeaderDesc(At(11), 1, true)];
    assert Bytes(mem, es[0]) == [1] && Bytes(mem, es[1]) == [2];
    assert Contents(mem, es, 2, 2) == [] && TotalLength(es, 2, 2) == 0;
    assert Contents(mem, es, 1, 2) == [2] && TotalLength(es, 1, 2) == 1;
  }

  /** The three headers of a packet hold 1, 2 and 3. The last is removed, and the packet leaves as 1, 2. */
  method LastRemoved() returns (pd: PacketDescriptor, exited: bool)
    ensures fresh(pd) && !exited && pd.Valid() && pd.data == 11 && pd.Packet() == [1, 2]
  {
    hide Stored, Untouched, StacksFilled, Deparsed, Ready, Contents, Blocks, NoClobber, TotalLength, Emitted, Stretch;
    pd := Prepared();
    pd.SetHdrInvalid(3);
    pd.Emit(0);
    pd.Emit(2);
    assert pd.reorder == [0, 2];
    TwoTogether();
    ghost var wanted := pd.Wanted();
    assert wanted == [1, 2] + pd.mem[13..13];
    exited := pd.DeparsePacket();
  }

  // ---------------------------------------------------------------- the last header removed, an absent one in between

  lemma {:induction false} AbsentBlocks()
    ensures var es := Emitted(Three123()[3 := HeaderDesc(Null, 1, true)], [0, 1, 2]);
            && Blocks(es, 0) == [Block(10, 1), Block(11, 1)] && TotalLength(es, 0, 3) == 2
            && InMemory(es, 103) && Contents(Memory123(), es, 0, 3) == [1, 2]
  {
    var es := Emitted(Three123()[3 := HeaderDesc(Null, 1, true)], [0, 1, 2]);
    var mem := Memory123();
    assert es == [HeaderDesc(At(10), 1, true), HeaderDesc(Null, 1, false), HeaderDesc(At(11), 1, true)];
    assert TotalLength(es, 3, 3) == 0 && TotalLength(es, 1, 1) == 0;
    assert TotalLength(es, 2, 3) == 1 && TotalLength(es, 1, 3) == 1 && TotalLength(es, 0, 1) == 1;
    assert Blocks(es, 3) == [];
    assert Blocks(es, 2) == [Block(11, 1)];
    assert Blocks(es, 1) == [Block(11, 1)];
    assert Bytes(mem, es[0]) == [1] && Bytes(mem, es[1]) == [] && Bytes(mem, es[2]) == [2];
    assert Contents(mem, es, 3, 3) == [];
    assert Contents(mem, es, 2, 3) == [2];
    assert Contents(mem, es, 1, 3) == [2];
  }

  /** The first copy overwrites what the second one reads. */
  lemma {:induction false} TwoCopies(m: seq<Byte>)
    requires |m| >= 13
    ensures var bs := [Block(10, 1), Block(11, 1)];
            && BlocksInMemory(bs, |m|) && BlockLength(bs) == 2
            && CopyBlocks(m, bs, 11)[11..13] == [m[10], m[10]]
  {
    var bs := [Block(10, 1), Block(11, 1)];
    assert bs[1..] == [Block(11, 1)] && [Block(11, 1)][1..] == [];
    assert BlockLength([Block(11, 1)]) == 1;
    var m1 := Copy(m, 11, 10, 1);
    var m2 := Copy(m1, 12, 11, 1);
    assert CopyBlocks(m1, [Block(11, 1)], 12) == m2;
  }

  lemma {:induction false} AbsentDeparsed(hs: seq<HeaderDesc>, log: seq<Tile>)
    requires hs == Three123()[3 := HeaderDesc(Null, 1, true)] && Stored(Four(1), hs, log, 10, 13)
    requires Ready(Four(1), Memory123(), hs, [0, 1, 2], 11)
    ensures Deparsed(Four(1), Memory123(), hs, [0, 1, 2], 11)[11..13] == [1, 1]
  {
    hide Stored, Stash, Blocks, CopyBlocks, TotalLength, Emitted, Contents;
    AbsentBlocks();
    var mem := Memory123();
    var m1 := Stash(Four(1), mem, hs, [0, 1, 2], 0);
    StashKeeps(Four(1), mem, hs, [0, 1, 2], 0, log, 10, 13);
    assert m1[10] == m1[0..50][10] == mem[0..50][10] == 1;
    TwoCopies(m1);
  }

  /** The same packet in a program that also emits header 1, which the packet does not have: it leaves as 1, 1. */
  method AbsentBetween() returns (pd: PacketDescriptor, ghost wanted: seq<Byte>, exited: bool)
    ensures fresh(pd) && !exited && pd.Valid() && pd.data == 11 && wanted == [1, 2] && pd.Packet() == [1, 1]
  {
    hide Stored, Untouched, StacksFilled, Deparsed, Ready, Contents, Blocks, NoClobber, TotalLength, Emitted, OneStretch;
    pd := Prepared();
    pd.SetHdrInvalid(3);
    pd.Emit(0);
    pd.Emit(1);
    pd.Emit(2);
    assert pd.reorder == [0, 1, 2];
    AbsentBlocks();
    wanted := pd.Wanted();
    assert wanted == [1, 2] + pd.mem[13..13];
    ghost var hs, log := pd.headers, pd.log;
    exited := pd.DeparsePacket();
    AbsentDeparsed(hs, log);
  }

  // ---------------------------------------------------------------- a header added, and nothing changed

  lemma {:induction false} AddedContents()
    ensures var hs := Three123()[1 := HeaderDesc(At(100), 1, false)];
            var es := Emitted(hs, [0, 1, 2, 3]);
            && EmitsAll(Four(1), hs, [0, 1, 2, 3], 0, [Tile(0, 10), Tile(2, 11), Tile(3, 12)], 0)
            && InMemory(es, 103) && TotalLength(es, 0, 4) == 4 && Contents(Memory123(), es, 0, 4) == [1, 9, 2, 3]
  {
    var hs := Three123()[1 := HeaderDesc(At(100), 1, false)];
    var es := Emitted(hs, [0, 1, 2, 3]);
    var mem, log := Memory123(), [Tile(0, 10), Tile(2, 11), Tile(3, 12)];
    FourSlots(1);
    assert EmitsAll(Four(1), hs, [0, 1, 2, 3], 4, log, 3);
    assert EmitsAll(Four(1), hs, [0, 1, 2, 3], 3, log, 2);
    assert EmitsAll(Four(1), hs, [0, 1, 2, 3], 2, log, 1);
    assert EmitsAll(Four(1), hs, [0, 1, 2, 3], 1, log, 1);
    assert Bytes(mem, es[0]) == [1] && Bytes(mem, es[1]) == [9] && Bytes(mem, es[2]) == [2] && Bytes(mem, es[3]) == [3];
    assert Contents(mem, es, 4, 4) == [] && TotalLength(es, 4, 4) == 0;
    assert Contents(mem, es, 3, 4) == [3] && TotalLength(es, 3, 4) == 1;
    assert Contents(mem, es, 2, 4) == [2, 3] && TotalLength(es, 2, 4) == 2;
    assert Contents(mem, es, 1, 4) == [9, 2, 3] && TotalLength(es, 1, 4) == 3;
  }

  method EmitFour(pd: PacketDescriptor)
    requires pd.Parsing() && |pd.headers| == 4 && pd.reorder == []
    modifies pd`reorder
    ensures pd.Parsing() && pd.reorder == [0, 1, 2, 3]
  {
    hide Stored;
    pd.Emit(0);
    pd.Emit(1);
    pd.Emit(2);
    pd.Emit(3);
  }

  /** Header 1 is added between the others; its slot holds 9. The packet grows to the left by its byte. */
  method HeaderAdded() returns (pd: PacketDescriptor, exited: bool)
    ensures fresh(pd) && !exited && pd.Valid() && pd.data == 9 && pd.Packet() == [1, 9, 2, 3]
  {
    hide Stored, Untouched, StacksFilled, Deparsed, Ready, Contents, Blocks, NoClobber, TotalLength, Emitted, EmitsAll,
         OneStretch;
    pd := Prepared();
    FourSlots(1);
    pd.SetHdrValid(1);
    EmitFour(pd);
    AddedContents();
    pd.AdditionsAreClear();
    ghost var wanted := pd.Wanted();
    assert wanted == [1, 9, 2, 3] + pd.mem[13..13];
    exited := pd.DeparsePacket();
  }

  lemma {:induction false} EmittedInOrder()
    ensures Once([Tile(0, 10), Tile(2, 11), Tile(3, 12)])
    ensures InOrder(Three123(), [0, 1, 2, 3], 0, [Tile(0, 10), Tile(2, 11), Tile(3, 12)], 0)
  {
    var hs, log := Three123(), [Tile(0, 10), Tile(2, 11), Tile(3, 12)];
    assert InOrder(hs, [0, 1, 2, 3], 4, log, 3);
    assert InOrder(hs, [0, 1, 2, 3], 3, log, 2);
    assert InOrder(hs, [0, 1, 2, 3], 2, log, 1);
    assert InOrder(hs, [0, 1, 2, 3], 1, log, 1);
  }

  /** Nothing is changed: the fast path leaves 1, 2, 3, and so would the full one. */
  method NothingChanged() returns (pd: PacketDescriptor, ghost full: seq<Byte>, exited: bool)
    ensures fresh(pd) && !exited && pd.Valid() && pd.data == 10 && pd.Packet() == [1, 2, 3] && full == [1, 2, 3]
  {
    hide Stored, Untouched, StacksFilled, Deparsed, Ready, Contents, Blocks, NoClobber, TotalLength, Emitted, InOrder,
         Once;
    pd := Prepared();
    EmitFour(pd);
    EmittedInOrder();
    pd.FastPath();
    full := Deparsed(pd.layout, pd.mem[..], pd.headers, pd.reorder, 10)[10..13];
    exited := pd.DeparsePacket();
  }

  // ---------------------------------------------------------------- a header removed while another is added

  /** Header 3 is removed, header 1 added, and headers 0, 1 and 2 are emitted. */
  method ReplaceHeader(pd: PacketDescriptor)
    requires pd.Parsing() && pd.FlagTells() && pd.layout == RemovalLayout() && pd.reorder == []
    requires pd.headers == [HeaderDesc(At(10), 1, true), HeaderDesc(Null, 1, false), HeaderDesc(At(11), 1, true),
                            HeaderDesc(At(12), 2, true)]
    modifies pd`headers, pd`reordering, pd`reorder
    ensures pd.Parsing() && pd.reordering && pd.headers == RemovalHeaders() && pd.reorder == [0, 1, 2]
  {
    hide Stored, Untouched;
    RemovalOffsets();
    pd.SetHdrInvalid(3);
    pd.SetHdrValid(1);
    pd.Emit(0);
    pd.Emit(1);
    pd.Emit(2);
  }

  /** The bytes of the three emitted headers. */
  lemma {:induction false} RemovalContents()
    ensures InMemory(Emitted(RemovalHeaders(), [0, 1, 2]), 104)
    ensures Contents(OneAt(104, 11), Emitted(RemovalHeaders(), [0, 1, 2]), 0, 3) == [0, 0, 1]
  {
    var mem, es := OneAt(104, 11), Emitted(RemovalHeaders(), [0, 1, 2]);
    assert mem[es[0].pointer.addr] == 0 && mem[es[1].pointer.addr] == 0 && mem[es[2].pointer.addr] == 1;
    assert es[0].size == 1 && es[1].size == 1 && es[2].size == 1;
    assert Bytes(mem, es[0]) == [0];
    assert Bytes(mem, es[1]) == [0];
    assert Bytes(mem, es[2]) == [1];
    assert Contents(mem, es, 3, 3) == [];
    assert Contents(mem, es, 2, 3) == [1];
    assert Contents(mem, es, 1, 3) == [0, 1];
  }

  /** Header 2 is lost: the packet should leave as the bytes 0, 0, 1, and leaves as three zeros. */
  method LostHeader() returns (pd: PacketDescriptor, ghost wanted: seq<Byte>, exited: bool)
    ensures fresh(pd) && !exited && pd.Valid() && wanted == [0, 0, 1] && pd.Packet() == [0, 0, 0]
  {
    hide Stored, Untouched, StacksFilled, Deparsed, Ready, Contents, Blocks, NoClobber, TotalLength, Emitted, OneStretch;
    var mem := new Byte[104](i => if i == 11 then 1 else 0);
    FourSlots(2);
    pd := new PacketDescriptor(RemovalLayout(), mem, [false, false, false, false], [false, false, false, false], []);
    ReceiveThree(pd, 2);
    ReplaceHeader(pd);
    assert mem[..] == OneAt(104, 11);
    RemovalBlocks();
    RemovalContents();
    RemovalComesOutWrong(104);
    wanted := pd.Wanted();
    exited := pd.DeparsePacket();
  }
}
