/** What a whole deparse run leaves in the packet: saving headers, moving the packet start, copying blocks. */
module Emission {
  import opened Memory
  import opened Deparse
  import opened Storage

  ghost predicate Indices(order: seq<nat>, n: nat) {
    forall k | 0 <= k < |order| :: order[k] < n
  }

  /** The descriptors of the emitted headers. */
  function Emitted(hs: seq<HeaderDesc>, order: seq<nat>): (es: seq<HeaderDesc>)
    requires Indices(order, |hs|)
    ensures |es| == |order|
  {
    seq(|order|, i requires 0 <= i < |order| => hs[order[i]])
  }

  lemma {:induction false} EmittedInMemory(hs: seq<HeaderDesc>, order: seq<nat>, limit: nat)
    requires Indices(order, |hs|) && InMemory(hs, limit)
    ensures InMemory(Emitted(hs, order), limit)
  {
  }

  /** What the copies have to work with: everything in memory, and room for the result. */
  ghost predicate Ready(l: Layout, mem: seq<Byte>, hs: seq<HeaderDesc>, order: seq<nat>, dst: nat) {
    && Sized(l, hs, |mem|) && Indices(order, |hs|)
    && dst + TotalLength(Emitted(hs, order), 0, |order|) <= |mem|
  }

  /** Memory after the headers have been saved and copied to `dst`. */
  ghost function Deparsed(l: Layout, mem: seq<Byte>, hs: seq<HeaderDesc>, order: seq<nat>, dst: nat): (r: seq<Byte>)
    requires Ready(l, mem, hs, order, dst)
    ensures |r| == |mem|
  {
    EmittedInMemory(hs, order, |mem|);
    var m1 := Stash(l, mem, hs, order, 0);
    BlocksHoldContents(m1, Emitted(hs, order), 0);
    CopyBlocks(m1, Blocks(Emitted(hs, order), 0), dst)
  }

  lemma {:induction false} ContentsAgree(mem: seq<Byte>, mem': seq<Byte>, es: seq<HeaderDesc>, i: nat)
    requires |mem'| == |mem| && InMemory(es, |mem|) && i <= |es|
    requires forall k | 0 <= k < |es| :: Bytes(mem', es[k]) == Bytes(mem, es[k])
    ensures Contents(mem', es, i, |es|) == Contents(mem, es, i, |es|)
    decreases |es| - i
  {
    hide Bytes;
    if i < |es| {
      ContentsAgree(mem, mem', es, i + 1);
    }
  }

  lemma {:induction false} SameContents(l: Layout, hs: seq<HeaderDesc>, order: seq<nat>, mem: seq<Byte>,
                                        mem': seq<Byte>)
    requires Sized(l, hs, |mem|) && Indices(order, |hs|) && |mem'| == |mem| && l.lo <= l.hi
    requires SameData(l, hs, mem, mem')
    ensures InMemory(Emitted(hs, order), |mem|)
    ensures Contents(mem', Emitted(hs, order), 0, |order|) == Contents(mem, Emitted(hs, order), 0, |order|)
  {
    var es := Emitted(hs, order);
    EmittedInMemory(hs, order, |mem|);
    forall k | 0 <= k < |es| ensures Bytes(mem', es[k]) == Bytes(mem, es[k]) {
      assert es[k] == hs[order[k]];
    }
    hide Emitted, SameData, Sized;
    ContentsAgree(mem, mem', es, 0);
  }

  lemma {:induction false} SameInside(a: seq<Byte>, b: seq<Byte>, lo: nat, hi: nat, i: nat, j: nat)
    requires lo <= i <= j <= hi <= |a| == |b| && a[lo..hi] == b[lo..hi]
    ensures a[i..j] == b[i..j]
  {
    forall k | i <= k < j ensures a[k] == b[k] {
      assert a[lo..hi][k - lo] == b[lo..hi][k - lo];
    }
  }

  lemma {:induction false} Window(a: seq<Byte>, b: seq<Byte>, c: seq<Byte>, stop: nat)
    requires |a| + |b| <= stop <= |a| + |b| + |c|
    ensures (a + b + c)[|a|..stop] == b + c[..stop - |a| - |b|]
  {
  }

  lemma {:induction false} CopiedWindow(mem: seq<Byte>, bs: seq<Block>, dst: nat, stop: nat)
    requires BlocksInMemory(bs, |mem|) && dst + BlockLength(bs) <= stop <= |mem| && NoClobber(bs, dst)
    ensures CopyBlocks(mem, bs, dst)[dst..stop] == BlockContents(mem, bs) + mem[dst + BlockLength(bs)..stop]
  {
    hide BlocksInMemory, BlockLength, NoClobber, CopyBlocks, BlockContents;
    var end := dst + BlockLength(bs);
    CopyBlocksExact(mem, bs, dst);
    Window(mem[..dst], BlockContents(mem, bs), mem[end..], stop);
    assert mem[end..][..stop - end] == mem[end..stop];
  }

  /** The deparsed packet is the emitted valid headers as they were before, then the old bytes from `pay` to
      the end `stop`, as long as no block is copied over the source of a later one. */
  lemma {:induction false} DeparseDelivers(l: Layout, mem: seq<Byte>, hs: seq<HeaderDesc>, order: seq<nat>,
                                           log: seq<Tile>,
                                           start: nat, end: nat, dst: nat, pay: nat, stop: nat)
    requires Stored(l, hs, log, start, end) && Ready(l, mem, hs, order, dst)
    requires l.lo <= dst && dst + TotalLength(Emitted(hs, order), 0, |order|) == pay <= stop <= l.hi
    requires NoClobber(Blocks(Emitted(hs, order), 0), dst)
    ensures InMemory(Emitted(hs, order), |mem|) && stop <= |mem|
    ensures Deparsed(l, mem, hs, order, dst)[dst..stop]
            == Contents(mem, Emitted(hs, order), 0, |order|) + mem[pay..stop]
  {
    hide Stored, Blocks, Contents, CopyBlocks, NoClobber, BlockContents, Stash, BlocksInMemory, BlockLength, Emitted,
         TotalLength;
    var es := Emitted(hs, order);
    EmittedInMemory(hs, order, |mem|);
    StoredLayout(l, hs, log, start, end);
    var m1 := Stash(l, mem, hs, order, 0);
    StashKeeps(l, mem, hs, order, 0, log, start, end);
    BlocksHoldContents(m1, es, 0);
    SameContents(l, hs, order, mem, m1);
    CopiedWindow(m1, Blocks(es, 0), dst, stop);
    SameInside(mem, m1, l.lo, l.hi, pay, stop);
  }

  // ---------------------------------------------------------------- nothing removed

  /** From emission index `i` and extraction `k` on: every extracted header is still where it was found and
      is emitted once, in extraction order; other valid headers, in their slots, come anywhere between. */
  predicate EmitsAll(l: Layout, hs: seq<HeaderDesc>, order: seq<nat>, i: nat, log: seq<Tile>, k: nat)
    requires |hs| == |l.widths| && i <= |order| && k <= |log| && Indices(order, |hs|)
    decreases |order| - i
  {
    if i == |order| then k == |log|
    else if hs[order[i]].pointer.Null? then EmitsAll(l, hs, order, i + 1, log, k)
    else if hs[order[i]].pointer.addr == l.Slot(order[i]) then EmitsAll(l, hs, order, i + 1, log, k)
    else k < |log| && log[k] == Tile(order[i], hs[order[i]].pointer.addr) && EmitsAll(l, hs, order, i + 1, log, k + 1)
  }

  /** One emitted header: either its slot is clear of the packet, or it continues the row in the packet. */
  lemma {:induction false} EmittedPlace(l: Layout, hs: seq<HeaderDesc>, order: seq<nat>, i: nat, log: seq<Tile>, k: nat,
                                        start: nat, end: nat)
    requires Stored(l, hs, log, start, end) && i < |order| && k <= |log| && Indices(order, |hs|)
    requires hs[order[i]].pointer.At? && EmitsAll(l, hs, order, i, log, k)
    ensures var h, g := hs[order[i]], Region(l.lo, l.hi);
            if h.pointer.addr == l.Slot(order[i]) then g.Outside(h)
            else k < |log| && !g.Outside(h) && g.Keeps(h, AddrOf(log, k, end)) && AddrOf(log, k + 1, end) == AddrOf(log, k, end) + h.size
  {
    var h := order[i];
    assert hs[h].size == l.widths[h];
    SlotApart(l, h, l.lo, l.hi - l.lo);
    SlotsInOrder(l, h, |l.widths|);
    if h > 0 {
      SlotsInOrder(l, 0, h);
    }
    if hs[h].pointer.addr != l.Slot(h) {
      assert log[k] in log && TileAt(l.widths, log, k, end);
      TileInside(l.widths, log, start, end, log[k]);
    }
  }

  lemma {:induction false} EmitsAllAddsOnly(l: Layout, hs: seq<HeaderDesc>, order: seq<nat>, i: nat,
                                            log: seq<Tile>, k: nat,
                                            start: nat, end: nat)
    requires Stored(l, hs, log, start, end) && i <= |order| && k <= |log| && Indices(order, |hs|)
    requires EmitsAll(l, hs, order, i, log, k)
    ensures Additions(Emitted(hs, order), i, AddrOf(log, k, end), Region(l.lo, l.hi))
    ensures TotalLength(Emitted(hs, order), i, |order|) + AddrOf(log, k, end)
            == Added(Emitted(hs, order), i, Region(l.lo, l.hi)) + end
    decreases |order| - i
  {
    assert |hs| == |l.widths|;
    hide Stored, Layout.Slot, Region.Outside, Region.Keeps, AddrOf;
    if i == |order| {
      assert AddrOf(log, k, end) == end by { AddrAtEnd(log, end); }
    } else if hs[order[i]].pointer.Null? {
      EmitsAllAddsOnly(l, hs, order, i + 1, log, k, start, end);
      NullInside(hs[order[i]], Region(l.lo, l.hi));
    } else {
      EmittedPlace(l, hs, order, i, log, k, start, end);
      EmitsAllAddsOnly(l, hs, order, i + 1, log, if hs[order[i]].pointer.addr == l.Slot(order[i]) then k else k + 1, start, end);
    }
  }

  lemma {:induction false} AddrAtEnd(log: seq<Tile>, end: nat)
    ensures AddrOf(log, |log|, end) == end
  {
  }

  lemma {:induction false} NullInside(h: HeaderDesc, g: Region)
    requires h.pointer.Null?
    ensures !g.Outside(h)
  {
  }

  /** When every extracted header is still in the packet and emitted in order, no overlap condition is needed:
      with any other headers interleaved, the packet comes out as the emitted headers and the old payload. */
  lemma {:induction false} AdditionsDeliver(l: Layout, mem: seq<Byte>, hs: seq<HeaderDesc>, order: seq<nat>,
                                            log: seq<Tile>,
                                            start: nat, end: nat, dst: nat, stop: nat)
    requires Stored(l, hs, log, start, end) && Ready(l, mem, hs, order, dst)
    requires l.lo <= dst && dst + TotalLength(Emitted(hs, order), 0, |order|) == end && end <= stop <= l.hi
    requires EmitsAll(l, hs, order, 0, log, 0)
    ensures NoClobber(Blocks(Emitted(hs, order), 0), dst)
    ensures InMemory(Emitted(hs, order), |mem|) && stop <= |mem|
    ensures Deparsed(l, mem, hs, order, dst)[dst..stop]
            == Contents(mem, Emitted(hs, order), 0, |order|) + mem[end..stop]
  {
    hide Stored, Blocks, Contents, NoClobber, Deparsed, Emitted, TotalLength, AddrOf, EmitsAll;
    EmitsAllAddsOnly(l, hs, order, 0, log, 0, start, end);
    StoredLayout(l, hs, log, start, end);
    AdditionsDoNotClobber(Emitted(hs, order), 0, AddrOf(log, 0, end), dst, Region(l.lo, l.hi));
    DeparseDelivers(l, mem, hs, order, log, start, end, dst, end, stop);
  }

  // ---------------------------------------------------------------- headers removed from either end

  /** If the headers with emission indices from `a` up to `m` are those with the same numbers in the order of
      extraction, still where they were found, and all others are invalid, the valid ones are one stretch. */
  lemma {:induction false} EndsRemoved(l: Layout, hs: seq<HeaderDesc>, order: seq<nat>, log: seq<Tile>, start: nat,
                                       end: nat, a: nat, m: nat)
    requires Stored(l, hs, log, start, end) && Indices(order, |hs|) && a <= m <= |log| && m <= |order|
    requires forall i | a <= i < m :: order[i] == log[i].hdr && hs[order[i]].pointer == At(log[i].addr)
    requires forall i | 0 <= i < |order| && !(a <= i < m) :: hs[order[i]].pointer.Null?
    ensures Stretch(Emitted(hs, order), a, m)
  {
    var es := Emitted(hs, order);
    forall k | a <= k < m - 1 ensures Adjacent(es[k], es[k + 1]) {
      assert TileAt(l.widths, log, k, end);
    }
  }

  // ---------------------------------------------------------------- nothing changed

  /** Where header `h` was extracted last; null if it was not. */
  function LastPlace(log: seq<Tile>, h: nat): Ptr {
    if log == [] then Null
    else if log[|log| - 1].hdr == h then At(log[|log| - 1].addr)
    else LastPlace(log[..|log| - 1], h)
  }

  /** No header's validity or pointer changed since it was extracted. */
  ghost predicate Untouched(hs: seq<HeaderDesc>, log: seq<Tile>) {
    forall h | 0 <= h < |hs| :: hs[h].pointer == LastPlace(log, h)
  }

  /** From emission index `i` and extraction `k` on, the valid emitted headers are the extracted ones in order. */
  predicate InOrder(hs: seq<HeaderDesc>, order: seq<nat>, i: nat, log: seq<Tile>, k: nat)
    requires i <= |order| && k <= |log| && Indices(order, |hs|)
    decreases |order| - i
  {
    if i == |order| then k == |log|
    else if hs[order[i]].pointer.Null? then InOrder(hs, order, i + 1, log, k)
    else k < |log| && log[k].hdr == order[i] && InOrder(hs, order, i + 1, log, k + 1)
  }

  /** Every header was extracted at most once. */
  ghost predicate Once(log: seq<Tile>) {
    forall j, k | 0 <= j < k < |log| :: log[j].hdr != log[k].hdr
  }

  lemma {:induction false} OncePlace(log: seq<Tile>, k: nat)
    requires Once(log) && k < |log|
    ensures LastPlace(log, log[k].hdr) == At(log[k].addr)
    decreases |log|
  {
    if k < |log| - 1 {
      assert log[k].hdr != log[|log| - 1].hdr;
      OncePlace(log[..|log| - 1], k);
    }
  }

  lemma {:induction false} InOrderEmitsAll(l: Layout, hs: seq<HeaderDesc>, order: seq<nat>, i: nat,
                                           log: seq<Tile>, k: nat,
                                           start: nat, end: nat)
    requires Stored(l, hs, log, start, end) && i <= |order| && k <= |log| && Indices(order, |hs|)
    requires Untouched(hs, log) && Once(log) && InOrder(hs, order, i, log, k)
    ensures EmitsAll(l, hs, order, i, log, k)
    ensures forall j | i <= j < |order| :: !Region(l.lo, l.hi).Outside(hs[order[j]])
    decreases |order| - i
  {
    hide Stored, Once, LastPlace;
    if i < |order| {
      var h := order[i];
      if hs[h].pointer.Null? {
        InOrderEmitsAll(l, hs, order, i + 1, log, k, start, end);
      } else {
        InOrderEmitsAll(l, hs, order, i + 1, log, k + 1, start, end);
        assert hs[h].pointer == LastPlace(log, h);
        OncePlace(log, k);
        TileNotSlot(l, hs, log, start, end, k);
      }
    }
  }

  lemma {:induction false} TileNotSlot(l: Layout, hs: seq<HeaderDesc>, log: seq<Tile>, start: nat, end: nat, k: nat)
    requires Stored(l, hs, log, start, end) && k < |log|
    ensures var t := log[k];
            t.hdr < |l.widths| && t.addr != l.Slot(t.hdr) && hs[t.hdr].size == l.widths[t.hdr]
            && l.lo <= t.addr && t.addr + l.widths[t.hdr] <= l.hi
  {
    assert log[k] in log;
    TileInside(l.widths, log, start, end, log[k]);
    SlotApart(l, log[k].hdr, l.lo, l.hi - l.lo);
  }

  lemma {:induction false} UntouchedAddsNothing(l: Layout, hs: seq<HeaderDesc>, order: seq<nat>, log: seq<Tile>,
                                                start: nat, end: nat)
    requires Stored(l, hs, log, start, end) && Indices(order, |hs|)
    requires Untouched(hs, log) && Once(log) && InOrder(hs, order, 0, log, 0)
    ensures EmitsAll(l, hs, order, 0, log, 0)
    ensures Additions(Emitted(hs, order), 0, start, Region(l.lo, l.hi))
    ensures forall j | 0 <= j < |order| :: !Region(l.lo, l.hi).Outside(Emitted(hs, order)[j])
    ensures TotalLength(Emitted(hs, order), 0, |order|) == end - start
  {
    assert AddrOf(log, 0, end) == start;
    InOrderEmitsAll(l, hs, order, 0, log, 0, start, end);
    hide Stored, TotalLength, AddrOf, EmitsAll, InOrder, Untouched, Once, Region.Outside, Additions, Added;
    StoredLayout(l, hs, log, start, end);
    EmitsAllAddsOnly(l, hs, order, 0, log, 0, start, end);
    NothingAdded(Emitted(hs, order), 0, Region(l.lo, l.hi));
  }

  /** The fast path refines the slow one: if no header's validity or pointer changed since parsing and the
      extracted headers are emitted in extraction order, then saving, resizing and copying would leave the
      packet start, its length and every byte of the packet as they are. */
  lemma {:induction false} FastPathIsSlowPath(l: Layout, mem: seq<Byte>, hs: seq<HeaderDesc>, order: seq<nat>,
                                              log: seq<Tile>,
                                              start: nat, end: nat, stop: nat)
    requires Stored(l, hs, log, start, end) && Sized(l, hs, |mem|) && Indices(order, |hs|) && end <= stop <= l.hi
    requires Untouched(hs, log) && Once(log) && InOrder(hs, order, 0, log, 0)
    ensures TotalLength(Emitted(hs, order), 0, |order|) == end - start
    ensures Ready(l, mem, hs, order, start)
    ensures stop <= |mem| && Deparsed(l, mem, hs, order, start)[start..stop] == mem[start..stop]
  {
    hide Stored, Blocks, Contents, Deparsed, TotalLength, EmitsAll, InOrder, Untouched, Once, Region.Outside,
         Additions, Added, Emitted, InMemory;
    UntouchedAddsNothing(l, hs, order, log, start, end);
    StoredLayout(l, hs, log, start, end);
    AdditionsDeliver(l, mem, hs, order, log, start, end, start, stop);
    UnchangedContents(mem, Emitted(hs, order), 0, start, Region(l.lo, l.hi));
    assert mem[start..stop] == mem[start..end] + mem[end..stop];
  }

  lemma {:induction false} NothingAdded(es: seq<HeaderDesc>, i: nat, g: Region)
    requires i <= |es| && forall j | i <= j < |es| :: !g.Outside(es[j])
    ensures Added(es, i, g) == 0
    decreases |es| - i
  {
    if i < |es| {
      NothingAdded(es, i + 1, g);
    }
  }
}
