/** Exactly when a deparsed packet comes out right, whatever is in memory. */
module Exactness {
  import opened Sequences
  import opened Memory
  import opened Deparse
  import opened Storage
  import opened Emission

  // ---------------------------------------------------------------- what the blocks cover

  predicate Has(h: HeaderDesc, x: nat) {
    h.pointer.At? && h.pointer.addr <= x < h.pointer.addr + h.size
  }

  /** Every byte of a run belongs to one of its headers. */
  lemma {:induction false} RunCovers(es: seq<HeaderDesc>, i: nat, x: nat) returns (k: nat)
    requires i < |es| && es[i].pointer.At?
    requires es[i].pointer.addr <= x < es[i].pointer.addr + TotalLength(es, i, RunEnd(es, i))
    ensures i <= k < RunEnd(es, i) && Has(es[k], x)
    decreases |es| - i
  {
    if x < es[i].pointer.addr + es[i].size {
      k := i;
    } else {
      k := RunCovers(es, i + 1, x);
    }
  }

  lemma {:induction false} BlockCovers(es: seq<HeaderDesc>, i: nat, b: Block, x: nat) returns (k: nat)
    requires i <= |es| && b in Blocks(es, i) && Covers(b, x)
    ensures i <= k < |es| && Has(es[k], x)
    decreases |es| - i
  {
    if es[i].pointer.Null? {
      k := BlockCovers(es, i + 1, b, x);
    } else {
      var e := RunEnd(es, i);
      if b == Block(es[i].pointer.addr, TotalLength(es, i, e)) {
        k := RunCovers(es, i, x);
      } else {
        assert b in Blocks(es, e);
        k := BlockCovers(es, e, b, x);
      }
    }
  }

  /** No two entries share a byte. */
  ghost predicate Apart(es: seq<HeaderDesc>) {
    forall j, k, x: nat | 0 <= j < k < |es| && Has(es[j], x) :: !Has(es[k], x)
  }

  lemma {:induction false} SharedByte(b: Block, c: Block) returns (x: nat)
    requires Overlap(b.addr, b.size, c.addr, c.size)
    ensures Covers(b, x) && Covers(c, x)
  {
    x := if b.addr > c.addr then b.addr else c.addr;
  }

  lemma {:induction false} BlocksApart(es: seq<HeaderDesc>, i: nat)
    requires i <= |es| && Apart(es)
    ensures SourcesDisjoint(Blocks(es, i))
    decreases |es| - i
  {
    if i < |es| {
      if es[i].pointer.Null? {
        BlocksApart(es, i + 1);
      } else {
        hide Apart, RunEnd, TotalLength;
        var e := RunEnd(es, i);
        var b, rest := Block(es[i].pointer.addr, TotalLength(es, i, e)), Blocks(es, e);
        BlocksApart(es, e);
        forall c | c in rest ensures !Overlap(b.addr, b.size, c.addr, c.size) {
          FirstApart(es, i, c);
        }
        OneMoreApart(b, rest);
      }
    }
  }

  lemma {:induction false} FirstApart(es: seq<HeaderDesc>, i: nat, c: Block)
    requires i < |es| && Apart(es) && es[i].pointer.At? && c in Blocks(es, RunEnd(es, i))
    ensures !Overlap(es[i].pointer.addr, TotalLength(es, i, RunEnd(es, i)), c.addr, c.size)
  {
    hide Blocks, TotalLength, RunEnd;
    var b := Block(es[i].pointer.addr, TotalLength(es, i, RunEnd(es, i)));
    if Overlap(b.addr, b.size, c.addr, c.size) {
      var x := SharedByte(b, c);
      var j := RunCovers(es, i, x);
      var k := BlockCovers(es, RunEnd(es, i), c, x);
      assert false;
    }
  }

  lemma {:induction false} OneMoreApart(b: Block, rest: seq<Block>)
    requires SourcesDisjoint(rest) && forall c | c in rest :: !Overlap(b.addr, b.size, c.addr, c.size)
    ensures SourcesDisjoint([b] + rest)
  {
    var all := [b] + rest;
    forall i, j | 0 <= i < j < |all| ensures !Overlap(all[i].addr, all[i].size, all[j].addr, all[j].size) {
      assert all[j] == rest[j - 1];
      if i > 0 {
        assert all[i] == rest[i - 1];
      }
    }
  }

  // ---------------------------------------------------------------- only the sources matter

  ghost predicate AgreeOn(m: seq<Byte>, m': seq<Byte>, bs: seq<Block>) {
    |m'| == |m| && forall x, b | 0 <= x < |m| && b in bs && Covers(b, x) :: m'[x] == m[x]
  }

  /** The copied region depends on the sources alone. */
  lemma {:induction false} OnlySourcesMatter(m: seq<Byte>, m': seq<Byte>, bs: seq<Block>, dst: nat)
    requires AgreeOn(m, m', bs) && BlocksInMemory(bs, |m|) && dst + BlockLength(bs) <= |m|
    ensures forall x | 0 <= x < |m| && (m'[x] == m[x] || dst <= x < dst + BlockLength(bs)) ::
              CopyBlocks(m', bs, dst)[x] == CopyBlocks(m, bs, dst)[x]
    decreases |bs|
  {
    if bs != [] {
      assert bs[0] in bs;
      CopyAgrees(m, m', bs, dst);
      OnlySourcesMatter(Copy(m, dst, bs[0].addr, bs[0].size), Copy(m', dst, bs[0].addr, bs[0].size), bs[1..],
                        dst + bs[0].size);
    }
  }

  lemma {:induction false} CopyAgrees(m: seq<Byte>, m': seq<Byte>, bs: seq<Block>, dst: nat)
    requires AgreeOn(m, m', bs) && bs != [] && bs[0].addr + bs[0].size <= |m| && dst + bs[0].size <= |m|
    ensures var c, c' := Copy(m, dst, bs[0].addr, bs[0].size), Copy(m', dst, bs[0].addr, bs[0].size);
            && AgreeOn(c, c', bs[1..])
            && forall x | 0 <= x < |m| && (m'[x] == m[x] || dst <= x < dst + bs[0].size) :: c'[x] == c[x]
  {
    var c, c' := Copy(m, dst, bs[0].addr, bs[0].size), Copy(m', dst, bs[0].addr, bs[0].size);
    forall x | 0 <= x < |m| && (m'[x] == m[x] || dst <= x < dst + bs[0].size) ensures c'[x] == c[x] {
      if dst <= x < dst + bs[0].size {
        assert bs[0] in bs && Covers(bs[0], bs[0].addr + (x - dst));
      }
    }
  }

  // ---------------------------------------------------------------- the deparser on real headers

  /** No valid header is emitted twice. */
  ghost predicate EmittedOnce(hs: seq<HeaderDesc>, order: seq<nat>)
    requires Indices(order, |hs|)
  {
    forall i, j | 0 <= i < j < |order| && hs[order[i]].pointer.At? :: order[i] != order[j]
  }

  lemma {:induction false} EmittedApart(l: Layout, hs: seq<HeaderDesc>, order: seq<nat>, log: seq<Tile>,
                                        start: nat, end: nat)
    requires Stored(l, hs, log, start, end) && Indices(order, |hs|) && EmittedOnce(hs, order)
    ensures Apart(Emitted(hs, order))
  {
    hide Stored;
    var es := Emitted(hs, order);
    forall j, k, x: nat | 0 <= j < k < |es| && Has(es[j], x) ensures !Has(es[k], x) {
      if Has(es[k], x) {
        RangesDisjoint(l, hs, log, start, end, order[j], order[k]);
        assert false;
      }
    }
  }

  lemma {:induction false} SourcesKept(l: Layout, mem: seq<Byte>, mem': seq<Byte>, hs: seq<HeaderDesc>, order: seq<nat>)
    requires Sized(l, hs, |mem|) && Indices(order, |hs|) && |mem'| == |mem| && l.lo <= l.hi
    requires SameData(l, hs, mem, mem')
    ensures AgreeOn(mem, mem', Blocks(Emitted(hs, order), 0))
  {
    hide Blocks;
    var es := Emitted(hs, order);
    forall x, b | 0 <= x < |mem| && b in Blocks(es, 0) && Covers(b, x) ensures mem'[x] == mem[x] {
      var k := BlockCovers(es, 0, b, x);
      var h := hs[order[k]];
      assert h.Within(|mem|) && h.Within(|mem'|);
      assert Bytes(mem', h) == Bytes(mem, h);
      assert Bytes(mem', h)[x - h.pointer.addr] == mem'[x] && Bytes(mem, h)[x - h.pointer.addr] == mem[x];
    }
  }

  /** The packet part that is copied holds the contents of the emitted headers. */
  ghost predicate ComesOutRight(l: Layout, mem: seq<Byte>, hs: seq<HeaderDesc>, order: seq<nat>, dst: nat)
    requires Ready(l, mem, hs, order, dst)
  {
    EmittedInMemory(hs, order, |mem|);
    var n := TotalLength(Emitted(hs, order), 0, |order|);
    Deparsed(l, mem, hs, order, dst)[dst..dst + n] == Contents(mem, Emitted(hs, order), 0, |order|)
  }

  /** A lone one in the source of a block that the copies lose comes out wrong. */
  lemma {:induction false} LostOneComesOutWrong(l: Layout, n: nat, hs: seq<HeaderDesc>, order: seq<nat>, log: seq<Tile>,
                                                start: nat, end: nat, dst: nat, c: Block, x: nat)
    requires Stored(l, hs, log, start, end) && Sized(l, hs, n) && Indices(order, |hs|)
    requires dst + TotalLength(Emitted(hs, order), 0, |order|) <= n
    requires var bs := Blocks(Emitted(hs, order), 0);
             && x < n && c in bs && Covers(c, x) && BlocksInMemory(bs, n) && dst + BlockLength(bs) <= n
             && forall i | 0 <= i < n :: CopyBlocks(OneAt(n, x), bs, dst)[i] == 0
    ensures Ready(l, OneAt(n, x), hs, order, dst) && !ComesOutRight(l, OneAt(n, x), hs, order, dst)
    ensures forall i | dst <= i < dst + TotalLength(Emitted(hs, order), 0, |order|) ::
              Deparsed(l, OneAt(n, x), hs, order, dst)[i] == 0
  {
    hide Stored, Blocks, Contents, BlockContents, CopyBlocks, BlocksInMemory, BlockLength, TotalLength, Stash, Emitted,
         Sized, InMemory, AgreeOn, SameData;
    var es := Emitted(hs, order);
    var bs := Blocks(es, 0);
    SizedInMemory(l, hs, order, n);
    var mem := OneAt(n, x);
    BlocksHoldContents(mem, es, 0);
    ContentsHaveOne(mem, bs, c, x);
    StoredLayout(l, hs, log, start, end);
    var m1 := Stash(l, mem, hs, order, 0);
    StashKeeps(l, mem, hs, order, 0, log, start, end);
    SourcesKept(l, mem, m1, hs, order);
    BlocksHoldContents(m1, es, 0);
    OnlySourcesMatter(mem, m1, bs, dst);
    var i :| 0 <= i < BlockLength(bs) && BlockContents(mem, bs)[i] == 1;
    assert CopyBlocks(m1, bs, dst)[dst + i] == 0;
    assert Deparsed(l, mem, hs, order, dst)[dst..dst + BlockLength(bs)][i] == 0;
  }

  /** If some block is copied over a later source, memory with a single one in that source comes out wrong. */
  lemma {:induction false} ClobberComesOutWrong(l: Layout, n: nat, hs: seq<HeaderDesc>, order: seq<nat>, log: seq<Tile>,
                                                start: nat, end: nat, dst: nat) returns (mem: seq<Byte>)
    requires Stored(l, hs, log, start, end) && Sized(l, hs, n) && Indices(order, |hs|) && EmittedOnce(hs, order)
    requires dst + TotalLength(Emitted(hs, order), 0, |order|) <= n && !NoClobber(Blocks(Emitted(hs, order), 0), dst)
    ensures |mem| == n && Ready(l, mem, hs, order, dst) && !ComesOutRight(l, mem, hs, order, dst)
  {
    hide Stored, Blocks, Contents, BlockContents, CopyBlocks, NoClobber, BlocksInMemory, BlockLength, TotalLength,
         Emitted, SourcesDisjoint, Apart, Sized, InMemory, Ready, ComesOutRight;
    var es := Emitted(hs, order);
    var bs := Blocks(es, 0);
    EmittedApart(l, hs, order, log, start, end);
    BlocksApart(es, 0);
    SizedInMemory(l, hs, order, n);
    BlocksHoldContents(OneAt(n, 0), es, 0);
    var c, x := ClobberFails(n, bs, dst);
    LostOneComesOutWrong(l, n, hs, order, log, start, end, dst, c, x);
    mem := OneAt(n, x);
  }

  lemma {:induction false} SizedInMemory(l: Layout, hs: seq<HeaderDesc>, order: seq<nat>, n: nat)
    requires Sized(l, hs, n) && Indices(order, |hs|)
    ensures InMemory(Emitted(hs, order), n)
  {
    EmittedInMemory(hs, order, n);
  }

  /** The exact condition for the deparser, in any state of parsing and header operations with no valid header
      emitted twice: saving and copying give the emitted headers' contents for every content of memory if and
      only if no block is copied over the source of a later one. */
  lemma {:induction false} DeparsedExactly(l: Layout, n: nat, hs: seq<HeaderDesc>, order: seq<nat>, log: seq<Tile>,
                                           start: nat, end: nat, dst: nat)
    requires Stored(l, hs, log, start, end) && Sized(l, hs, n) && Indices(order, |hs|) && EmittedOnce(hs, order)
    requires l.lo <= dst && dst + TotalLength(Emitted(hs, order), 0, |order|) <= l.hi
    ensures dst + TotalLength(Emitted(hs, order), 0, |order|) <= n
    ensures (forall mem: seq<Byte> | |mem| == n :: ComesOutRight(l, mem, hs, order, dst))
            <==> NoClobber(Blocks(Emitted(hs, order), 0), dst)
  {
    hide Stored, Blocks, Contents, NoClobber, TotalLength, Emitted, Deparsed, EmittedOnce;
    var stop := dst + TotalLength(Emitted(hs, order), 0, |order|);
    if NoClobber(Blocks(Emitted(hs, order), 0), dst) {
      forall mem: seq<Byte> | |mem| == n ensures ComesOutRight(l, mem, hs, order, dst) {
        DeparseDelivers(l, mem, hs, order, log, start, end, dst, stop, stop);
        assert mem[stop..stop] == [];
      }
    } else {
      var mem := ClobberComesOutWrong(l, n, hs, order, log, start, end, dst);
    }
  }

  // ---------------------------------------------------------------- a removal that comes out wrong

  /** Headers of 1, 1, 1 and 2 bytes. Headers 0, 2 and 3 were found at 10, 11 and 12; then 3 was removed and 1
      was added. */
  function RemovalLayout(): Layout { Layout([1, 1, 1, 2], 99, 0, 50) }

  function RemovalLog(): seq<Tile> { [Tile(0, 10), Tile(2, 11), Tile(3, 12)] }

  function RemovalHeaders(): seq<HeaderDesc> {
    [HeaderDesc(At(10), 1, true), HeaderDesc(At(100), 1, false), HeaderDesc(At(11), 1, true), HeaderDesc(Null, 2, true)]
  }

  lemma {:induction false} RemovalOffsets()
    ensures var l := RemovalLayout();
            l.Slot(0) == 99 && l.Slot(1) == 100 && l.Slot(2) == 101 && l.Slot(3) == 102 && l.TmpEnd() == 104
  {
    var w := RemovalLayout().widths;
    assert Offset(w, 0) == 0 && Offset(w, 1) == 1;
    assert Offset(w, 2) == 2 && Offset(w, 3) == 3;
    assert Offset(w, 4) == 5;
  }

  lemma {:induction false} RemovalStored()
    ensures Stored(RemovalLayout(), RemovalHeaders(), RemovalLog(), 10, 14)
    ensures Indices([0, 1, 2], 4) && EmittedOnce(RemovalHeaders(), [0, 1, 2])
  {
    RemovalOffsets();
    var log := RemovalLog();
    assert log[0] == Tile(0, 10) && log[1] == Tile(2, 11);
    assert Placed(RemovalLayout(), log, 0, At(10)) && Placed(RemovalLayout(), log, 2, At(11));
  }

  /** The first copy goes over the source of the third. */
  lemma {:induction false} RemovalBlocks()
    ensures var es := Emitted(RemovalHeaders(), [0, 1, 2]);
            && Blocks(es, 0) == [Block(10, 1), Block(100, 1), Block(11, 1)] && TotalLength(es, 0, 3) == 3
            && BlockLength(Blocks(es, 0)) == 3
  {
    var es := Emitted(RemovalHeaders(), [0, 1, 2]);
    assert es == [HeaderDesc(At(10), 1, true), HeaderDesc(At(100), 1, false), HeaderDesc(At(11), 1, true)];
    assert TotalLength(es, 3, 3) == 0;
    assert TotalLength(es, 2, 3) == 1 && TotalLength(es, 1, 2) == 1 + TotalLength(es, 2, 2);
    assert TotalLength(es, 0, 1) == 1 + TotalLength(es, 1, 1) && TotalLength(es, 1, 3) == 1 + TotalLength(es, 2, 3);
    assert Blocks(es, 3) == [];
    assert Blocks(es, 2) == [Block(11, 1)];
    assert Blocks(es, 1) == [Block(100, 1)] + Blocks(es, 2);
    assert Blocks(es, 0) == [Block(10, 1)] + Blocks(es, 1);
    var bs := [Block(10, 1), Block(100, 1), Block(11, 1)];
    assert bs[1..][1..] == [Block(11, 1)] && [Block(11, 1)][1..] == [];
    assert BlockLength([Block(11, 1)]) == 1;
    assert BlockLength(bs[1..]) == 2;
  }

  /** In this state of parsing and header operations a packet comes out wrong: memory with a one at address 11,
      which is header 2, loses it. */
  lemma {:induction false} RemovalComesOutWrong(n: nat)
    requires n >= 104
    ensures Ready(RemovalLayout(), OneAt(n, 11), RemovalHeaders(), [0, 1, 2], 11)
    ensures !ComesOutRight(RemovalLayout(), OneAt(n, 11), RemovalHeaders(), [0, 1, 2], 11)
    ensures Deparsed(RemovalLayout(), OneAt(n, 11), RemovalHeaders(), [0, 1, 2], 11)[11..14] == [0, 0, 0]
  {
    hide Stored, Blocks, CopyBlocks, TotalLength, Emitted, Ready, ComesOutRight, EmittedOnce;
    var l, hs, bs := RemovalLayout(), RemovalHeaders(), [Block(10, 1), Block(100, 1), Block(11, 1)];
    RemovalOffsets();
    RemovalStored();
    RemovalBlocks();
    ClobberLoses(OneAt(n, 11), bs, 11, 11);
    AllInMemory(l, hs, RemovalLog(), 10, 14, n);
    assert bs[2] in bs;
    LostOneComesOutWrong(l, n, hs, [0, 1, 2], RemovalLog(), 10, 14, 11, bs[2], 11);
  }
}
