/** What the deparser's copying does to packet memory.

    The emitted headers are given as descriptors in emission order; a null pointer marks an invalid header,
    which is left out of the packet. Headers that lie one after the other in memory are copied in one go. */
module Deparse {
  import opened Memory

  datatype Ptr = Null | At(addr: nat)

  datatype HeaderDesc = HeaderDesc(pointer: Ptr, size: nat, wasEnabled: bool) {
    /** Bytes the header takes in the packet. */
    function Length(): nat { if pointer.Null? then 0 else size }

    predicate Within(limit: nat) { pointer.At? ==> pointer.addr + size <= limit }
  }

  /** A stretch of memory. */
  datatype Block = Block(addr: nat, size: nat)

  ghost predicate InMemory(es: seq<HeaderDesc>, limit: nat) {
    forall k | 0 <= k < |es| :: es[k].Within(limit)
  }

  /** The bytes of one header; none if it is invalid. */
  ghost function Bytes(mem: seq<Byte>, h: HeaderDesc): (r: seq<Byte>)
    requires h.Within(|mem|)
    ensures |r| == h.Length()
  {
    if h.pointer.Null? then [] else mem[h.pointer.addr..h.pointer.addr + h.size]
  }

  /** The bytes of the valid headers with indices from `i` up to `e`, in emission order. */
  ghost function Contents(mem: seq<Byte>, es: seq<HeaderDesc>, i: nat, e: nat): (r: seq<Byte>)
    requires i <= e <= |es| && InMemory(es, |mem|)
    ensures |r| == TotalLength(es, i, e)
    decreases e - i
  {
    if i == e then [] else Bytes(mem, es[i]) + Contents(mem, es, i + 1, e)
  }

  function TotalLength(es: seq<HeaderDesc>, i: nat, e: nat): nat
    requires i <= e <= |es|
    decreases e - i
  {
    if i == e then 0 else es[i].Length() + TotalLength(es, i + 1, e)
  }

  // ---------------------------------------------------------------- coalescing

  /** Header `b` starts where `a` ends. */
  predicate Adjacent(a: HeaderDesc, b: HeaderDesc) {
    a.pointer.At? && b.pointer == At(a.pointer.addr + a.size)
  }

  /** The index after the run of adjacent headers that contains index `i`. */
  function RunEnd(es: seq<HeaderDesc>, i: nat): (e: nat)
    requires i < |es|
    ensures i < e <= |es|
    decreases |es| - i
  {
    if i + 1 < |es| && Adjacent(es[i], es[i + 1]) then RunEnd(es, i + 1) else i + 1
  }

  /** A run goes on as long as headers lie one after the other, and no further. */
  ghost predicate WholeRun(es: seq<HeaderDesc>, i: nat, e: nat) {
    && i < e <= |es|
    && (forall k | i <= k < e - 1 :: Adjacent(es[k], es[k + 1]))
    && (e < |es| ==> !Adjacent(es[e - 1], es[e]))
  }

  lemma {:induction false} RunMaximal(es: seq<HeaderDesc>, i: nat)
    requires i < |es|
    ensures WholeRun(es, i, RunEnd(es, i))
    decreases |es| - i
  {
    if i + 1 < |es| && Adjacent(es[i], es[i + 1]) {
      RunMaximal(es, i + 1);
    }
  }

  /** There is only one whole run from an index. */
  lemma {:induction false} RunUnique(es: seq<HeaderDesc>, i: nat, e: nat)
    requires WholeRun(es, i, e)
    ensures RunEnd(es, i) == e
    decreases e - i
  {
    if e > i + 1 {
      assert Adjacent(es[i], es[i + 1]);
      RunUnique(es, i + 1, e);
    }
  }

  /** The copies the deparser makes for the entries from index `i` on. */
  function Blocks(es: seq<HeaderDesc>, i: nat): seq<Block>
    requires i <= |es|
    decreases |es| - i
  {
    if i == |es| then []
    else if es[i].pointer.Null? then Blocks(es, i + 1)
    else
      var e := RunEnd(es, i);
      [Block(es[i].pointer.addr, TotalLength(es, i, e))] + Blocks(es, e)
  }

  ghost predicate BlocksInMemory(bs: seq<Block>, limit: nat) {
    forall b | b in bs :: b.addr + b.size <= limit
  }

  function BlockLength(bs: seq<Block>): nat {
    if bs == [] then 0 else bs[0].size + BlockLength(bs[1..])
  }

  ghost function BlockContents(mem: seq<Byte>, bs: seq<Block>): (r: seq<Byte>)
    requires BlocksInMemory(bs, |mem|)
    ensures |r| == BlockLength(bs)
  {
    if bs == [] then []
    else
      assert bs[0] in bs;
      mem[bs[0].addr..bs[0].addr + bs[0].size] + BlockContents(mem, bs[1..])
  }

  /** Memory after the blocks have been copied one after the other to consecutive places from `dst` on. */
  ghost function CopyBlocks(mem: seq<Byte>, bs: seq<Block>, dst: nat): (r: seq<Byte>)
    requires BlocksInMemory(bs, |mem|) && dst + BlockLength(bs) <= |mem|
    ensures |r| == |mem|
    decreases |bs|
  {
    if bs == [] then mem
    else
      assert bs[0] in bs;
      CopyBlocks(Copy(mem, dst, bs[0].addr, bs[0].size), bs[1..], dst + bs[0].size)
  }

  lemma {:induction false} ContentsSplit(mem: seq<Byte>, es: seq<HeaderDesc>, i: nat, m: nat, e: nat)
    requires i <= m <= e <= |es| && InMemory(es, |mem|)
    ensures Contents(mem, es, i, e) == Contents(mem, es, i, m) + Contents(mem, es, m, e)
    decreases m - i
  {
    hide Bytes;
    if i < m {
      ContentsSplit(mem, es, i + 1, m, e);
    }
  }

  lemma {:induction false} TotalLengthSplit(es: seq<HeaderDesc>, i: nat, m: nat, e: nat)
    requires i <= m <= e <= |es|
    ensures TotalLength(es, i, e) == TotalLength(es, i, m) + TotalLength(es, m, e)
    decreases m - i
  {
    if i < m {
      TotalLengthSplit(es, i + 1, m, e);
    }
  }

  lemma {:induction false} FirstOfContents(mem: seq<Byte>, es: seq<HeaderDesc>, i: nat, e: nat)
    requires i < e <= |es| && InMemory(es, |mem|) && es[i].pointer.At?
    ensures var a, s := es[i].pointer.addr, es[i].size;
            && a + s <= |mem| && TotalLength(es, i, e) == s + TotalLength(es, i + 1, e)
            && Contents(mem, es, i, e) == mem[a..a + s] + Contents(mem, es, i + 1, e)
    ensures TotalLength(es, e, e) == 0 && Contents(mem, es, e, e) == []
  {
    assert es[i].Within(|mem|);
  }

  lemma {:induction false} RunStep(es: seq<HeaderDesc>, i: nat)
    requires i < |es| && es[i].pointer.At?
    ensures if i + 1 < |es| && es[i + 1].pointer == At(es[i].pointer.addr + es[i].size) then RunEnd(es, i) == RunEnd(es, i + 1)
            else RunEnd(es, i) == i + 1
  {
  }

  /** A run of adjacent headers is one stretch of memory, and its bytes are theirs in order. */
  lemma {:induction false} RunContents(mem: seq<Byte>, es: seq<HeaderDesc>, i: nat)
    requires i < |es| && es[i].pointer.At? && InMemory(es, |mem|)
    ensures var a, e := es[i].pointer.addr, RunEnd(es, i);
            var n := TotalLength(es, i, e);
            a + n <= |mem| && mem[a..a + n] == Contents(mem, es, i, e)
    decreases |es| - i
  {
    hide *;
    var a, e, s := es[i].pointer.addr, RunEnd(es, i), es[i].size;
    RunStep(es, i);
    FirstOfContents(mem, es, i, e);
    if e > i + 1 {
      RunContents(mem, es, i + 1);
      var n := TotalLength(es, i, e);
      assert mem[a..a + n] == mem[a..a + s] + mem[a + s..a + n];
    } else {
      assert mem[a..a + s] + [] == mem[a..a + s];
    }
  }

  lemma {:induction false} RunThenRest(mem: seq<Byte>, es: seq<HeaderDesc>, i: nat)
    requires i < |es| && es[i].pointer.At? && InMemory(es, |mem|)
    ensures var a, e := es[i].pointer.addr, RunEnd(es, i);
            var n := TotalLength(es, i, e);
            && a + n <= |mem|
            && Contents(mem, es, i, |es|) == mem[a..a + n] + Contents(mem, es, e, |es|)
            && TotalLength(es, i, |es|) == n + TotalLength(es, e, |es|)
  {
    hide Contents, TotalLength, RunEnd;
    RunContents(mem, es, i);
    ContentsSplit(mem, es, i, RunEnd(es, i), |es|);
    TotalLengthSplit(es, i, RunEnd(es, i), |es|);
  }

  lemma {:induction false} OneMoreBlock(mem: seq<Byte>, b: Block, rest: seq<Block>)
    requires b.addr + b.size <= |mem| && BlocksInMemory(rest, |mem|)
    ensures BlocksInMemory([b] + rest, |mem|) && BlockLength([b] + rest) == b.size + BlockLength(rest)
    ensures BlockContents(mem, [b] + rest) == mem[b.addr..b.addr + b.size] + BlockContents(mem, rest)
  {
    assert ([b] + rest)[1..] == rest;
  }

  /** Blocks that hold exactly the contents of the entries from index `i` on. */
  ghost predicate Hold(mem: seq<Byte>, bs: seq<Block>, es: seq<HeaderDesc>, i: nat)
    requires i <= |es| && InMemory(es, |mem|)
  {
    && BlocksInMemory(bs, |mem|)
    && BlockContents(mem, bs) == Contents(mem, es, i, |es|)
    && BlockLength(bs) == TotalLength(es, i, |es|)
  }

  lemma {:induction false} FirstBlockHolds(mem: seq<Byte>, es: seq<HeaderDesc>, i: nat, rest: seq<Block>)
    requires i < |es| && InMemory(es, |mem|) && es[i].pointer.At? && Hold(mem, rest, es, RunEnd(es, i))
    ensures Hold(mem, [Block(es[i].pointer.addr, TotalLength(es, i, RunEnd(es, i)))] + rest, es, i)
  {
    hide Contents, TotalLength, RunEnd, BlocksInMemory, BlockContents, BlockLength;
    RunThenRest(mem, es, i);
    OneMoreBlock(mem, Block(es[i].pointer.addr, TotalLength(es, i, RunEnd(es, i))), rest);
  }

  /** Coalescing loses nothing: the blocks hold the contents of the valid headers in emission order, and
      they are as long as the total that the size computation adds up. */
  lemma {:induction false} BlocksHoldContents(mem: seq<Byte>, es: seq<HeaderDesc>, i: nat)
    requires i <= |es| && InMemory(es, |mem|)
    ensures Hold(mem, Blocks(es, i), es, i)
    decreases |es| - i
  {
    hide RunEnd;
    if i < |es| && es[i].pointer.At? {
      hide Hold, TotalLength;
      BlocksHoldContents(mem, es, RunEnd(es, i));
      FirstBlockHolds(mem, es, i, Blocks(es, RunEnd(es, i)));
    } else if i < |es| {
      hide BlocksInMemory, BlockContents, BlockLength;
      BlocksHoldContents(mem, es, i + 1);
    }
  }

  // ---------------------------------------------------------------- when the copies are right

  /** No block is copied over the source of a later block. Depends on the layout only, not on the bytes. */
  predicate NoClobber(bs: seq<Block>, dst: nat)
    decreases |bs|
  {
    bs == [] ||
    ((forall b | b in bs[1..] :: !Overlap(dst, bs[0].size, b.addr, b.size)) && NoClobber(bs[1..], dst + bs[0].size))
  }

  // ---------------------------------------------------------------- headers in one stretch

  /** The valid entries are those from `i` up to `j`, and they lie one after the other. */
  ghost predicate Stretch(es: seq<HeaderDesc>, i: nat, j: nat) {
    && i <= j <= |es|
    && (forall k | 0 <= k < |es| :: es[k].pointer.At? <==> i <= k < j)
    && (forall k | i <= k < j - 1 :: Adjacent(es[k], es[k + 1]))
  }

  /** The valid headers lie one after the other in one stretch of memory, with no invalid one emitted in
      between. */
  ghost predicate OneStretch(es: seq<HeaderDesc>) {
    exists i: nat, j: nat :: Stretch(es, i, j)
  }

  /** A stretch is copied in one go. */
  lemma {:induction false} StretchBlocks(es: seq<HeaderDesc>, i: nat, j: nat, k: nat)
    requires Stretch(es, i, j) && k <= i
    ensures Blocks(es, k) == if i == j then [] else [Block(es[i].pointer.addr, TotalLength(es, i, j))]
    decreases i - k
  {
    hide TotalLength, RunEnd;
    if k < i {
      StretchBlocks(es, i, j, k + 1);
    } else {
      NoneLeft(es, j);
      if i < j { RunUnique(es, i, j); }
    }
  }

  lemma {:induction false} NoneLeft(es: seq<HeaderDesc>, j: nat)
    requires j <= |es| && forall k | j <= k < |es| :: es[k].pointer.Null?
    ensures Blocks(es, j) == []
    decreases |es| - j
  {
    if j < |es| {
      NoneLeft(es, j + 1);
    }
  }

  /** Nothing is overwritten too early, wherever the headers go. */
  lemma {:induction false} StretchDoesNotClobber(es: seq<HeaderDesc>, dst: nat)
    requires OneStretch(es)
    ensures NoClobber(Blocks(es, 0), dst)
  {
    var i: nat, j: nat :| Stretch(es, i, j);
    StretchBlocks(es, i, j, 0);
  }

  lemma {:induction false} ContentsUnchanged(mem: seq<Byte>, mem': seq<Byte>, bs: seq<Block>)
    requires |mem'| == |mem| && BlocksInMemory(bs, |mem|)
    requires forall b | b in bs :: mem'[b.addr..b.addr + b.size] == mem[b.addr..b.addr + b.size]
    ensures BlockContents(mem', bs) == BlockContents(mem, bs)
  {
    if bs != [] {
      assert bs[0] in bs;
      ContentsUnchanged(mem, mem', bs[1..]);
    }
  }

  lemma {:induction false} CopySlices(mem: seq<Byte>, dst: nat, src: nat, n: nat, k: nat)
    requires dst + n <= k <= |mem| && src + n <= |mem|
    ensures Copy(mem, dst, src, n)[..dst + n] == mem[..dst] + mem[src..src + n]
    ensures Copy(mem, dst, src, n)[k..] == mem[k..]
  {
  }

  lemma {:induction false} Regroup(a: seq<Byte>, b: seq<Byte>, c: seq<Byte>, d: seq<Byte>)
    ensures (a + b) + c + d == a + (b + c) + d
  {
  }

  lemma {:induction false} RestUnchanged(mem: seq<Byte>, bs: seq<Block>, dst: nat)
    requires BlocksInMemory(bs, |mem|) && bs != [] && dst + BlockLength(bs) <= |mem| && NoClobber(bs, dst)
    ensures bs[0].addr + bs[0].size <= |mem| && BlocksInMemory(bs[1..], |mem|)
    ensures BlockContents(Copy(mem, dst, bs[0].addr, bs[0].size), bs[1..]) == BlockContents(mem, bs[1..])
  {
    hide Copy, Overlap, BlockContents;
    var b, rest := bs[0], bs[1..];
    assert b in bs;
    var m1 := Copy(mem, dst, b.addr, b.size);
    forall c | c in rest ensures m1[c.addr..c.addr + c.size] == mem[c.addr..c.addr + c.size] {
      CopyElsewhere(mem, dst, b.addr, b.size, c.addr, c.size);
    }
    ContentsUnchanged(mem, m1, rest);
  }

  /** Without clobbering, the copies put the blocks' contents from `dst` on and change nothing else. */
  lemma {:induction false} CopyBlocksExact(mem: seq<Byte>, bs: seq<Block>, dst: nat)
    requires BlocksInMemory(bs, |mem|) && dst + BlockLength(bs) <= |mem| && NoClobber(bs, dst)
    ensures CopyBlocks(mem, bs, dst) == mem[..dst] + BlockContents(mem, bs) + mem[dst + BlockLength(bs)..]
    decreases |bs|
  {
    hide Copy, Overlap;
    if bs != [] {
      var b, rest := bs[0], bs[1..];
      RestUnchanged(mem, bs, dst);
      var m1 := Copy(mem, dst, b.addr, b.size);
      CopyBlocksExact(m1, rest, dst + b.size);
      CopySlices(mem, dst, b.addr, b.size, dst + BlockLength(bs));
      var x, y, z, w := mem[..dst], mem[b.addr..b.addr + b.size], BlockContents(mem, rest), mem[dst + BlockLength(bs)..];
      assert CopyBlocks(mem, bs, dst) == (x + y) + z + w;
      Regroup(x, y, z, w);
    }
  }

  /** The copied region holds the contents the blocks had before. */
  ghost predicate Delivered(mem: seq<Byte>, bs: seq<Block>, dst: nat)
    requires BlocksInMemory(bs, |mem|) && dst + BlockLength(bs) <= |mem|
  {
    CopyBlocks(mem, bs, dst)[dst..dst + BlockLength(bs)] == BlockContents(mem, bs)
  }

  ghost predicate SourcesDisjoint(bs: seq<Block>) {
    forall i, j | 0 <= i < j < |bs| :: !Overlap(bs[i].addr, bs[i].size, bs[j].addr, bs[j].size)
  }

  /** Memory of `n` bytes that is zero except for a one at address `b`. */
  function OneAt(n: nat, b: nat): (m: seq<Byte>)
    ensures |m| == n
  {
    seq(n, i => if i == b then 1 else 0)
  }

  ghost predicate ZeroExceptAt(mem: seq<Byte>, b: nat) {
    forall i | 0 <= i < |mem| && i != b :: mem[i] == 0
  }

  predicate Covers(b: Block, x: nat) { b.addr <= x < b.addr + b.size }

  /** Zero memory stays zero, and a lone one that no block reads is never spread. */
  lemma {:induction false} ZerosStay(mem: seq<Byte>, bs: seq<Block>, dst: nat, x: nat)
    requires BlocksInMemory(bs, |mem|) && dst + BlockLength(bs) <= |mem|
    requires ZeroExceptAt(mem, x)
    requires (x < |mem| ==> mem[x] == 0) || forall b | b in bs :: !Covers(b, x)
    ensures ZeroExceptAt(CopyBlocks(mem, bs, dst), x)
    ensures x < |mem| && mem[x] == 0 ==> CopyBlocks(mem, bs, dst)[x] == 0
    decreases |bs|
  {
    if bs != [] {
      assert bs[0] in bs;
      ZerosStay(Copy(mem, dst, bs[0].addr, bs[0].size), bs[1..], dst + bs[0].size, x);
    }
  }

  /** If the first block writes over byte `x` of a later block's source, then for memory with a lone one
      at `x` that one is lost: everything is zero from then on. */
  lemma {:induction false} ClobberLoses(mem: seq<Byte>, bs: seq<Block>, dst: nat, x: nat)
    requires BlocksInMemory(bs, |mem|) && dst + BlockLength(bs) <= |mem| && bs != []
    requires ZeroExceptAt(mem, x) && x < |mem|
    requires dst <= x < dst + bs[0].size && !Covers(bs[0], x)
    ensures forall i | 0 <= i < |mem| :: CopyBlocks(mem, bs, dst)[i] == 0
  {
    assert bs[0] in bs;
    var m1 := Copy(mem, dst, bs[0].addr, bs[0].size);
    assert m1[x] == mem[bs[0].addr + (x - dst)] == 0;
    ZerosStay(m1, bs[1..], dst + bs[0].size, x);
  }

  /** A one in the source of some block shows up in the contents. */
  lemma {:induction false} ContentsHaveOne(mem: seq<Byte>, bs: seq<Block>, c: Block, x: nat)
    requires BlocksInMemory(bs, |mem|) && c in bs && Covers(c, x) && x < |mem| && mem[x] == 1
    ensures exists i :: 0 <= i < BlockLength(bs) && BlockContents(mem, bs)[i] == 1
  {
    assert bs[0] in bs;
    var head := mem[bs[0].addr..bs[0].addr + bs[0].size];
    if c == bs[0] {
      assert BlockContents(mem, bs)[x - c.addr] == 1;
    } else {
      ContentsHaveOne(mem, bs[1..], c, x);
      var i :| 0 <= i < BlockLength(bs[1..]) && BlockContents(mem, bs[1..])[i] == 1;
      assert BlockContents(mem, bs)[bs[0].size + i] == 1;
    }
  }

  lemma {:induction false} DisjointTail(bs: seq<Block>)
    requires SourcesDisjoint(bs) && bs != []
    ensures SourcesDisjoint(bs[1..])
    ensures forall c, x | c in bs[1..] && Covers(c, x) :: !Covers(bs[0], x)
  {
    forall i, j | 0 <= i < j < |bs[1..]| ensures !Overlap(bs[1..][i].addr, bs[1..][i].size, bs[1..][j].addr, bs[1..][j].size) {
      assert !Overlap(bs[i + 1].addr, bs[i + 1].size, bs[j + 1].addr, bs[j + 1].size);
    }
    forall c, x | c in bs[1..] && Covers(c, x) ensures !Covers(bs[0], x) {
      var j :| 1 <= j < |bs| && bs[j] == c;
      assert !Overlap(bs[0].addr, bs[0].size, bs[j].addr, bs[j].size);
    }
  }

  /** Where the layout makes a block clobber a later source, some memory content is delivered wrong. */
  lemma {:induction false} ClobberFails(n: nat, bs: seq<Block>, dst: nat) returns (c: Block, x: nat)
    requires BlocksInMemory(bs, n) && dst + BlockLength(bs) <= n
    requires SourcesDisjoint(bs) && !NoClobber(bs, dst)
    ensures x < n && c in bs && Covers(c, x)
    ensures forall i | 0 <= i < n :: CopyBlocks(OneAt(n, x), bs, dst)[i] == 0
    decreases |bs|
  {
    hide Copy, SourcesDisjoint;
    assert bs[0] in bs;
    DisjointTail(bs);
    if b :| b in bs[1..] && Overlap(dst, bs[0].size, b.addr, b.size) {
      c, x := b, if dst > b.addr then dst else b.addr;
      ClobberLoses(OneAt(n, x), bs, dst, x);
    } else {
      c, x := ClobberFails(n, bs[1..], dst + bs[0].size);
      // the first copy reads only zeros, and leaves the one alone unless it writes over it
      if dst <= x < dst + bs[0].size {
        ClobberLoses(OneAt(n, x), bs, dst, x);
      } else {
        FirstCopyOfOne(n, bs, dst, x);
      }
    }
  }

  lemma {:induction false} FirstCopyOfOne(n: nat, bs: seq<Block>, dst: nat, x: nat)
    requires BlocksInMemory(bs, n) && dst + BlockLength(bs) <= n && bs != [] && x < n
    requires !Covers(bs[0], x) && !(dst <= x < dst + bs[0].size)
    ensures Copy(OneAt(n, x), dst, bs[0].addr, bs[0].size) == OneAt(n, x)
  {
  }

  /** The deparser's copies are right for every content of memory if and only if no block is copied over
      the source of a later one. */
  lemma {:induction false} DeliveredExactly(n: nat, bs: seq<Block>, dst: nat)
    requires BlocksInMemory(bs, n) && dst + BlockLength(bs) <= n && SourcesDisjoint(bs)
    ensures (forall mem: seq<Byte> | |mem| == n :: Delivered(mem, bs, dst)) <==> NoClobber(bs, dst)
  {
    if NoClobber(bs, dst) {
      forall mem: seq<Byte> | |mem| == n ensures Delivered(mem, bs, dst) {
        CopyBlocksExact(mem, bs, dst);
      }
    } else {
      var c, x := ClobberFails(n, bs, dst);
      ContentsHaveOne(OneAt(n, x), bs, c, x);
      assert !Delivered(OneAt(n, x), bs, dst);
    }
  }

  // ---------------------------------------------------------------- packets that only gained headers

  /** The region of the packet buffer; other storage is at least a byte away from it. */
  datatype Region = Region(lo: nat, hi: nat) {
    predicate Outside(e: HeaderDesc) {
      e.pointer.At? && (e.pointer.addr + e.size < lo || hi < e.pointer.addr)
    }
    predicate Keeps(e: HeaderDesc, p: nat) {
      e.pointer == At(p) && lo <= p && p + e.size <= hi
    }
  }

  /** From index `i` on, the valid entries are headers outside the packet, interleaved anywhere with headers
      that follow each other in the packet from address `p` on: nothing extracted is missing or reordered. */
  predicate Additions(es: seq<HeaderDesc>, i: nat, p: nat, g: Region)
    requires i <= |es|
    decreases |es| - i
  {
    i == |es| ||
    (if es[i].pointer.Null? then Additions(es, i + 1, p, g)
     else if g.Outside(es[i]) then Additions(es, i + 1, p, g)
     else g.Keeps(es[i], p) && Additions(es, i + 1, p + es[i].size, g))
  }

  /** Bytes of the headers that come from outside the packet. */
  function Added(es: seq<HeaderDesc>, i: nat, g: Region): nat
    requires i <= |es|
    decreases |es| - i
  {
    if i == |es| then 0 else (if g.Outside(es[i]) then es[i].size else 0) + Added(es, i + 1, g)
  }

  /** A run is entirely outside the packet or entirely inside it. */
  lemma {:induction false} RunOfAdditions(es: seq<HeaderDesc>, i: nat, p: nat, g: Region)
    requires i < |es| && es[i].pointer.At? && Additions(es, i, p, g)
    ensures var e := RunEnd(es, i);
            var n := TotalLength(es, i, e);
            if g.Outside(es[i]) then Additions(es, e, p, g) && Added(es, i, g) == n + Added(es, e, g)
            else es[i].pointer.addr == p && Additions(es, e, p + n, g) && Added(es, i, g) == Added(es, e, g)
    decreases |es| - i
  {
    var e := RunEnd(es, i);
    if e > i + 1 {
      RunOfAdditions(es, i + 1, if g.Outside(es[i]) then p else p + es[i].size, g);
    }
  }

  predicate AtOrRight(b: Block, p: nat, g: Region) {
    b.addr + b.size < g.lo || g.hi < b.addr || b.addr >= p
  }

  lemma {:induction false} RunOutside(es: seq<HeaderDesc>, i: nat, g: Region)
    requires i < |es| && g.Outside(es[i]) && g.lo <= g.hi
    requires forall k | i <= k < RunEnd(es, i) :: es[k].pointer.At? ==> g.Outside(es[k]) || (g.lo <= es[k].pointer.addr <= g.hi)
    ensures var n := TotalLength(es, i, RunEnd(es, i));
            es[i].pointer.addr + n < g.lo || g.hi < es[i].pointer.addr
    decreases |es| - i
  {
    var e := RunEnd(es, i);
    if e > i + 1 {
      RunOutside(es, i + 1, g);
    }
  }

  lemma {:induction false} AdditionsPlaces(es: seq<HeaderDesc>, i: nat, p: nat, g: Region, k: nat)
    requires i <= k < |es| && Additions(es, i, p, g) && es[k].pointer.At?
    ensures g.Outside(es[k]) || (g.lo <= es[k].pointer.addr <= g.hi)
    decreases |es| - i
  {
    if i < k {
      AdditionsPlaces(es, i + 1, if es[i].pointer.Null? || g.Outside(es[i]) then p else p + es[i].size, g, k);
    }
  }

  lemma {:induction false} BlocksAtOrRight(es: seq<HeaderDesc>, i: nat, p: nat, g: Region)
    requires i <= |es| && Additions(es, i, p, g) && g.lo <= g.hi
    ensures forall b | b in Blocks(es, i) :: AtOrRight(b, p, g)
    decreases |es| - i
  {
    if i < |es| {
      if es[i].pointer.Null? {
        BlocksAtOrRight(es, i + 1, p, g);
      } else {
        var e := RunEnd(es, i);
        RunOfAdditions(es, i, p, g);
        BlocksAtOrRight(es, e, if g.Outside(es[i]) then p else p + TotalLength(es, i, e), g);
        if g.Outside(es[i]) {
          forall k | i <= k < e && es[k].pointer.At? ensures g.Outside(es[k]) || (g.lo <= es[k].pointer.addr <= g.hi) {
            AdditionsPlaces(es, i, p, g, k);
          }
          RunOutside(es, i, g);
        }
        assert Blocks(es, i) == [Block(es[i].pointer.addr, TotalLength(es, i, e))] + Blocks(es, e);
      }
    }
  }

  /** The blocks from index `i` on are the run at `i` and the blocks after it. */
  lemma {:induction false} FirstBlock(es: seq<HeaderDesc>, i: nat)
    requires i < |es| && es[i].pointer.At?
    ensures var e := RunEnd(es, i);
            && Blocks(es, i) == [Block(es[i].pointer.addr, TotalLength(es, i, e))] + Blocks(es, e)
            && TotalLength(es, i, |es|) == TotalLength(es, i, e) + TotalLength(es, e, |es|)
  {
    hide TotalLength;
    var e := RunEnd(es, i);
    TotalLengthSplit(es, i, e, |es|);
  }

  lemma {:induction false} NullAddsNothing(es: seq<HeaderDesc>, i: nat, p: nat, g: Region)
    requires i < |es| && es[i].pointer.Null?
    ensures TotalLength(es, i, |es|) == TotalLength(es, i + 1, |es|) && Added(es, i, g) == Added(es, i + 1, g)
    ensures Blocks(es, i) == Blocks(es, i + 1) && Additions(es, i, p, g) == Additions(es, i + 1, p, g)
  {
  }

  lemma {:induction false} FirstDoesNotClobber(b: Block, rest: seq<Block>, dst: nat)
    requires (forall c | c in rest :: !Overlap(dst, b.size, c.addr, c.size)) && NoClobber(rest, dst + b.size)
    ensures NoClobber([b] + rest, dst)
  {
    hide Overlap;
    assert ([b] + rest)[1..] == rest;
  }

  lemma {:induction false} RunDoesNotClobber(n: nat, rest: seq<Block>, dst: nat, p: nat, g: Region)
    requires forall c | c in rest :: AtOrRight(c, p, g)
    requires g.lo <= dst && dst + n <= p && dst + n <= g.hi
    ensures forall c | c in rest :: !Overlap(dst, n, c.addr, c.size)
  {
    forall c | c in rest ensures !Overlap(dst, n, c.addr, c.size) {
      assert AtOrRight(c, p, g);
    }
  }

  /** When headers were only added, the packet start moves left by the bytes added, every source lies at or
      right of its destination, and no block is copied over a later source. */
  lemma {:induction false} AdditionsDoNotClobber(es: seq<HeaderDesc>, i: nat, p: nat, dst: nat, g: Region)
    requires i <= |es| && Additions(es, i, p, g) && p == dst + Added(es, i, g)
    requires g.lo <= dst && dst + TotalLength(es, i, |es|) <= g.hi
    ensures NoClobber(Blocks(es, i), dst)
    decreases |es| - i
  {
    hide *;
    if i == |es| {
      NoneLeft(es, i);
      NothingToClobber(dst);
    } else if es[i].pointer.Null? {
      NullAddsNothing(es, i, p, g);
      AdditionsDoNotClobber(es, i + 1, p, dst, g);
    } else {
      var e := RunEnd(es, i);
      var n := TotalLength(es, i, e);
      RunOfAdditions(es, i, p, g);
      FirstBlock(es, i);
      var p' := if g.Outside(es[i]) then p else p + n;
      AdditionsDoNotClobber(es, e, p', dst + n, g);
      BlocksAtOrRight(es, e, p', g);
      RunDoesNotClobber(n, Blocks(es, e), dst, p', g);
      FirstDoesNotClobber(Block(es[i].pointer.addr, n), Blocks(es, e), dst);
    }
  }

  lemma {:induction false} NothingToClobber(dst: nat)
    ensures NoClobber([], dst)
  {
  }

  /** If nothing was added either, the valid headers already make up the front of the packet. */
  lemma {:induction false} UnchangedContents(mem: seq<Byte>, es: seq<HeaderDesc>, i: nat, p: nat, g: Region)
    requires i <= |es| && InMemory(es, |mem|) && Additions(es, i, p, g)
    requires forall k | i <= k < |es| :: !g.Outside(es[k])
    requires p + TotalLength(es, i, |es|) <= |mem|
    ensures Contents(mem, es, i, |es|) == mem[p..p + TotalLength(es, i, |es|)]
    decreases |es| - i
  {
    hide *;
    if i == |es| {
      NoContents(mem, es);
    } else if es[i].pointer.At? {
      FirstUnchanged(es, i, p, g);
      FirstOfContents(mem, es, i, |es|);
      UnchangedContents(mem, es, i + 1, p + es[i].size, g);
      SliceParts(mem, p, p + es[i].size, p + TotalLength(es, i, |es|));
    } else {
      NullAddsNothing(es, i, p, g);
      NullHasNoContents(mem, es, i);
      UnchangedContents(mem, es, i + 1, p, g);
    }
  }

  lemma {:induction false} FirstUnchanged(es: seq<HeaderDesc>, i: nat, p: nat, g: Region)
    requires i < |es| && es[i].pointer.At? && !g.Outside(es[i]) && Additions(es, i, p, g)
    ensures es[i].pointer.addr == p && Additions(es, i + 1, p + es[i].size, g)
  {
  }

  lemma {:induction false} NoContents(mem: seq<Byte>, es: seq<HeaderDesc>)
    requires InMemory(es, |mem|)
    ensures Contents(mem, es, |es|, |es|) == [] && TotalLength(es, |es|, |es|) == 0
  {
  }

  lemma {:induction false} SliceParts(mem: seq<Byte>, p: nat, q: nat, r: nat)
    requires p <= q <= r <= |mem|
    ensures mem[p..r] == mem[p..q] + mem[q..r]
  {
  }

  lemma {:induction false} NullHasNoContents(mem: seq<Byte>, es: seq<HeaderDesc>, i: nat)
    requires i < |es| && InMemory(es, |mem|) && es[i].pointer.Null?
    ensures TotalLength(es, i, |es|) == TotalLength(es, i + 1, |es|)
    ensures Contents(mem, es, i, |es|) == Contents(mem, es, i + 1, |es|)
  {
  }
}
