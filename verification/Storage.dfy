/** Where the bytes of headers live: an extracted header stays in the packet, an activated one uses its own
    slot of the temporary header storage. */
module Storage {
  import opened Sequences
  import opened Memory
  import opened Deparse

  /** What the generated header table and the buffers fix: the byte width of every header, the address of
      the temporary storage, and the bounds of the packet buffer. */
  datatype Layout = Layout(widths: seq<nat>, tmp: nat, lo: nat, hi: nat) {
    function TmpEnd(): nat { tmp + Offset(widths, |widths|) }

    /** The two buffers are separate objects with at least a byte between them. */
    predicate Valid() { lo <= hi && (hi < tmp || TmpEnd() < lo) }

    predicate FitsIn(limit: nat) { hi <= limit && TmpEnd() <= limit }

    /** The place of header `h` in the temporary storage. */
    function Slot(h: nat): nat
      requires h <= |widths|
    {
      tmp + Offset(widths, h)
    }
  }

  lemma {:induction false} SlotsInOrder(l: Layout, g: nat, h: nat)
    requires g < h <= |l.widths|
    ensures l.Slot(g) + l.widths[g] <= l.Slot(h) <= l.TmpEnd()
    ensures h == g + 1 ==> l.Slot(g) + l.widths[g] == l.Slot(h)
    ensures l.Slot(0) == l.tmp && l.Slot(|l.widths|) == l.TmpEnd()
  {
    OffsetsInOrder(l.widths, g, h);
    if h < |l.widths| {
      OffsetsInOrder(l.widths, h, |l.widths|);
    }
  }

  /** One extraction: header `hdr` was found at `addr`. */
  datatype Tile = Tile(hdr: nat, addr: nat)

  /** The address after the first `k` extractions. */
  function AddrOf(log: seq<Tile>, k: nat, end: nat): nat
    requires k <= |log|
  {
    if k < |log| then log[k].addr else end
  }

  /** The next extraction, or `end`, comes right after the `k`-th one. */
  predicate TileAt(widths: seq<nat>, log: seq<Tile>, k: nat, end: nat)
    requires k < |log|
  {
    log[k].hdr < |widths| && AddrOf(log, k + 1, end) == log[k].addr + widths[log[k].hdr]
  }

  /** The extracted headers tile memory from `start` to `end` without gap or overlap. */
  ghost predicate Tiles(widths: seq<nat>, log: seq<Tile>, start: nat, end: nat) {
    && AddrOf(log, 0, end) == start
    && forall k | 0 <= k < |log| :: TileAt(widths, log, k, end)
  }

  lemma {:induction false} TilesInOrder(widths: seq<nat>, log: seq<Tile>, start: nat, end: nat, j: nat, k: nat)
    requires Tiles(widths, log, start, end) && j <= k <= |log|
    ensures AddrOf(log, j, end) <= AddrOf(log, k, end)
    ensures j < k ==> log[j].hdr < |widths| && log[j].addr + widths[log[j].hdr] <= AddrOf(log, k, end)
    decreases k - j
  {
    if j < k {
      assert TileAt(widths, log, j, end);
      TilesInOrder(widths, log, start, end, j + 1, k);
    }
  }

  lemma {:induction false} TileInside(widths: seq<nat>, log: seq<Tile>, start: nat, end: nat, t: Tile)
    requires Tiles(widths, log, start, end) && t in log
    ensures t.hdr < |widths| && start <= t.addr && t.addr + widths[t.hdr] <= end
  {
    var k :| 0 <= k < |log| && log[k] == t;
    assert TileAt(widths, log, k, end);
    TilesInOrder(widths, log, start, end, 0, k);
    TilesInOrder(widths, log, start, end, k, |log|);
  }

  /** A pointer of header `h` is null, or its own slot, or a place where `h` was extracted. */
  predicate Placed(l: Layout, log: seq<Tile>, h: nat, p: Ptr)
    requires h < |l.widths|
  {
    p.At? ==> p.addr == l.Slot(h) || Tile(h, p.addr) in log
  }

  /** The storage invariant. */
  ghost predicate Stored(l: Layout, hs: seq<HeaderDesc>, log: seq<Tile>, start: nat, end: nat) {
    && l.Valid() && |hs| == |l.widths|
    && (forall h | 0 <= h < |hs| :: hs[h].size == l.widths[h] && Placed(l, log, h, hs[h].pointer))
    && Tiles(l.widths, log, start, end) && l.lo <= start <= end <= l.hi
  }

  /** A valid header lies in its slot or in the part of the packet that was parsed. */
  lemma {:induction false} InSlotOrPacket(l: Layout, hs: seq<HeaderDesc>, log: seq<Tile>, start: nat, end: nat, h: nat)
    requires Stored(l, hs, log, start, end) && h < |hs| && hs[h].pointer.At?
    ensures var a := hs[h].pointer.addr;
            if a == l.Slot(h) then l.tmp <= a && a + hs[h].size <= l.TmpEnd()
            else Tile(h, a) in log && start <= a && a + hs[h].size <= end
  {
    assert Placed(l, log, h, hs[h].pointer);
    SlotsInOrder(l, h, |l.widths|);
    if h > 0 {
      SlotsInOrder(l, 0, h);
    }
    if hs[h].pointer.addr != l.Slot(h) {
      TileInside(l.widths, log, start, end, Tile(h, hs[h].pointer.addr));
    }
  }

  lemma {:induction false} AllInMemory(l: Layout, hs: seq<HeaderDesc>, log: seq<Tile>, start: nat, end: nat, limit: nat)
    requires Stored(l, hs, log, start, end) && l.FitsIn(limit)
    ensures InMemory(hs, limit)
  {
    forall h | 0 <= h < |hs| ensures hs[h].Within(limit) {
      if hs[h].pointer.At? {
        InSlotOrPacket(l, hs, log, start, end, h);
      }
    }
  }

  /** A slot never overlaps the packet buffer. */
  lemma {:induction false} SlotApart(l: Layout, h: nat, a: nat, n: nat)
    requires l.Valid() && h < |l.widths| && l.lo <= a && a + n <= l.hi
    ensures !Overlap(l.Slot(h), l.widths[h], a, n)
    ensures l.Slot(h) < l.lo || l.hi < l.Slot(h)
  {
    SlotsInOrder(l, h, |l.widths|);
    if h > 0 {
      SlotsInOrder(l, 0, h);
    }
  }

  /** The slot of `h` overlaps no valid header other than `h` itself. */
  lemma {:induction false} SlotIsOwn(l: Layout, hs: seq<HeaderDesc>, log: seq<Tile>, start: nat, end: nat, h: nat,
                                     g: nat)
    requires Stored(l, hs, log, start, end) && h < |hs| && g < |hs| && hs[g].pointer.At?
    requires g != h || hs[g].pointer.addr != l.Slot(h)
    ensures !Overlap(l.Slot(h), l.widths[h], hs[g].pointer.addr, hs[g].size)
  {
    InSlotOrPacket(l, hs, log, start, end, g);
    if hs[g].pointer.addr != l.Slot(g) {
      SlotApart(l, h, hs[g].pointer.addr, hs[g].size);
    } else if g < h {
      SlotsInOrder(l, g, h);
    } else {
      SlotsInOrder(l, h, g);
    }
  }

  /** The ranges of two valid headers are disjoint. */
  lemma {:induction false} RangesDisjoint(l: Layout, hs: seq<HeaderDesc>, log: seq<Tile>, start: nat, end: nat,
                                          g: nat, h: nat)
    requires Stored(l, hs, log, start, end) && g < |hs| && h < |hs| && g != h
    requires hs[g].pointer.At? && hs[h].pointer.At?
    ensures !Overlap(hs[g].pointer.addr, hs[g].size, hs[h].pointer.addr, hs[h].size)
  {
    var a, b := hs[g].pointer.addr, hs[h].pointer.addr;
    assert hs[g].size == l.widths[g] && hs[h].size == l.widths[h];
    if a == l.Slot(g) {
      SlotIsOwn(l, hs, log, start, end, g, h);
    } else if b == l.Slot(h) {
      SlotIsOwn(l, hs, log, start, end, h, g);
    } else {
      assert Placed(l, log, g, hs[g].pointer) && Placed(l, log, h, hs[h].pointer);
      var j :| 0 <= j < |log| && log[j] == Tile(g, a);
      var k :| 0 <= k < |log| && log[k] == Tile(h, b);
      TilesInOrder(l.widths, log, start, end, if j < k then j else k, if j < k then k else j);
    }
  }

  // ---------------------------------------------------------------- saving headers before the copy

  ghost predicate Sized(l: Layout, hs: seq<HeaderDesc>, limit: nat) {
    && |hs| == |l.widths| && l.FitsIn(limit) && InMemory(hs, limit)
    && forall h | 0 <= h < |hs| :: hs[h].size == l.widths[h]
  }

  predicate Saved(h: HeaderDesc) { h.pointer.At? && h.wasEnabled }

  lemma {:induction false} SlotFits(l: Layout, h: nat, limit: nat)
    requires h < |l.widths| && l.FitsIn(limit)
    ensures l.Slot(h) + l.widths[h] <= limit
  {
    SlotsInOrder(l, h, |l.widths|);
  }

  /** Copy a header that was found by the parser to its slot. */
  ghost function StashOne(l: Layout, mem: seq<Byte>, hs: seq<HeaderDesc>, h: nat): (r: seq<Byte>)
    requires Sized(l, hs, |mem|) && h < |hs|
    ensures |r| == |mem|
  {
    if Saved(hs[h]) then
      SlotFits(l, h, |mem|);
      assert hs[h].Within(|mem|);
      Copy(mem, l.Slot(h), hs[h].pointer.addr, hs[h].size)
    else mem
  }

  /** Do so for the emitted headers from index `i` on. */
  ghost function Stash(l: Layout, mem: seq<Byte>, hs: seq<HeaderDesc>, order: seq<nat>, i: nat): (r: seq<Byte>)
    requires Sized(l, hs, |mem|) && i <= |order| && forall k | 0 <= k < |order| :: order[k] < |hs|
    ensures |r| == |mem|
    decreases |order| - i
  {
    if i == |order| then mem else Stash(l, StashOne(l, mem, hs, order[i]), hs, order, i + 1)
  }

  /** Nothing that matters differs: every valid header has the same bytes, and so has the packet buffer. */
  ghost predicate SameData(l: Layout, hs: seq<HeaderDesc>, mem: seq<Byte>, mem': seq<Byte>)
    requires Sized(l, hs, |mem|) && |mem'| == |mem| && l.lo <= l.hi
  {
    && mem'[l.lo..l.hi] == mem[l.lo..l.hi]
    && forall g | 0 <= g < |hs| :: Bytes(mem', hs[g]) == Bytes(mem, hs[g])
  }

  lemma {:induction false} StashOneKeeps(l: Layout, mem: seq<Byte>, hs: seq<HeaderDesc>, log: seq<Tile>,
                                         start: nat, end: nat, h: nat)
    requires Stored(l, hs, log, start, end) && Sized(l, hs, |mem|) && h < |hs|
    ensures SameData(l, hs, mem, StashOne(l, mem, hs, h))
  {
    if Saved(hs[h]) {
      hide Copy, Stored;
      SlotFits(l, h, |mem|);
      assert hs[h].Within(|mem|);
      var m1 := Copy(mem, l.Slot(h), hs[h].pointer.addr, hs[h].size);
      assert l.lo <= l.hi by { StoredLayout(l, hs, log, start, end); }
      PacketKept(l, mem, hs, log, start, end, h);
      forall g | 0 <= g < |hs| ensures Bytes(m1, hs[g]) == Bytes(mem, hs[g]) {
        HeaderKept(l, mem, hs, log, start, end, h, g);
      }
    }
  }

  lemma {:induction false} StoredLayout(l: Layout, hs: seq<HeaderDesc>, log: seq<Tile>, start: nat, end: nat)
    requires Stored(l, hs, log, start, end)
    ensures l.Valid() && l.lo <= start <= end <= l.hi
  {
  }

  lemma {:induction false} PacketKept(l: Layout, mem: seq<Byte>, hs: seq<HeaderDesc>, log: seq<Tile>, start: nat,
                                      end: nat, h: nat)
    requires Stored(l, hs, log, start, end) && Sized(l, hs, |mem|) && h < |hs| && Saved(hs[h])
    ensures StashOne(l, mem, hs, h)[l.lo..l.hi] == mem[l.lo..l.hi]
  {
    hide Copy;
    SlotFits(l, h, |mem|);
    assert hs[h].Within(|mem|);
    SlotApart(l, h, l.lo, l.hi - l.lo);
    CopyElsewhere(mem, l.Slot(h), hs[h].pointer.addr, hs[h].size, l.lo, l.hi - l.lo);
  }

  lemma {:induction false} HeaderKept(l: Layout, mem: seq<Byte>, hs: seq<HeaderDesc>, log: seq<Tile>, start: nat,
                                      end: nat, h: nat, g: nat)
    requires Stored(l, hs, log, start, end) && Sized(l, hs, |mem|) && h < |hs| && Saved(hs[h]) && g < |hs|
    ensures hs[g].Within(|mem|) && Bytes(StashOne(l, mem, hs, h), hs[g]) == Bytes(mem, hs[g])
  {
    hide Copy;
    SlotFits(l, h, |mem|);
    assert hs[h].Within(|mem|) && hs[g].Within(|mem|);
    if hs[h].pointer.addr == l.Slot(h) {
      CopyOntoItself(mem, l.Slot(h), hs[h].size);
    } else if hs[g].pointer.At? {
      SlotIsOwn(l, hs, log, start, end, h, g);
      CopyElsewhere(mem, l.Slot(h), hs[h].pointer.addr, hs[h].size, hs[g].pointer.addr, hs[g].size);
    }
  }

  /** Saving headers disturbs no valid header, emitted or not, and no byte of the packet. */
  lemma {:induction false} StashKeeps(l: Layout, mem: seq<Byte>, hs: seq<HeaderDesc>, order: seq<nat>, i: nat,
                                      log: seq<Tile>, start: nat, end: nat)
    requires Stored(l, hs, log, start, end) && Sized(l, hs, |mem|)
    requires i <= |order| && forall k | 0 <= k < |order| :: order[k] < |hs|
    ensures SameData(l, hs, mem, Stash(l, mem, hs, order, i))
    decreases |order| - i
  {
    hide Stored, StashOne;
    StoredLayout(l, hs, log, start, end);
    if i < |order| {
      StashOneKeeps(l, mem, hs, log, start, end, order[i]);
      StashKeeps(l, StashOne(l, mem, hs, order[i]), hs, order, i + 1, log, start, end);
    }
  }

  /** After the stash, the slot of every emitted header that the parser found holds its bytes. */
  lemma {:induction false} StashSaves(l: Layout, mem: seq<Byte>, hs: seq<HeaderDesc>, order: seq<nat>, i: nat,
                                      log: seq<Tile>, start: nat, end: nat, k: nat)
    requires Stored(l, hs, log, start, end) && Sized(l, hs, |mem|)
    requires i <= |order| && forall j | 0 <= j < |order| :: order[j] < |hs|
    requires k < |order| && Saved(hs[order[k]])
    requires i <= k || SlotHolds(l, mem, hs, order[k])
    ensures SlotHolds(l, Stash(l, mem, hs, order, i), hs, order[k])
    ensures Bytes(Stash(l, mem, hs, order, i), hs[order[k]]) == Bytes(mem, hs[order[k]])
    decreases |order| - i
  {
    hide Stored, StashOne, SlotHolds;
    if i < |order| {
      var m1 := StashOne(l, mem, hs, order[i]);
      assert hs[order[k]].Within(|mem|);
      if SlotHolds(l, mem, hs, order[k]) || order[i] == order[k] {
        SlotHeld(l, mem, hs, log, start, end, order[i], order[k]);
      }
      StoredLayout(l, hs, log, start, end);
      StashOneKeeps(l, mem, hs, log, start, end, order[i]);
      StashSaves(l, m1, hs, order, i + 1, log, start, end, k);
    }
  }

  /** The slot of `h` holds the bytes of `h`. */
  ghost predicate SlotHolds(l: Layout, mem: seq<Byte>, hs: seq<HeaderDesc>, h: nat)
    requires Sized(l, hs, |mem|) && h < |hs|
  {
    SlotFits(l, h, |mem|);
    assert hs[h].Within(|mem|);
    hs[h].pointer.At? && mem[l.Slot(h)..l.Slot(h) + hs[h].size] == Bytes(mem, hs[h])
  }

  lemma {:induction false} CopyLands(mem: seq<Byte>, dst: nat, src: nat, n: nat)
    requires dst + n <= |mem| && src + n <= |mem|
    ensures Copy(mem, dst, src, n)[dst..dst + n] == mem[src..src + n]
  {
  }

  lemma {:induction false} SlotHeld(l: Layout, mem: seq<Byte>, hs: seq<HeaderDesc>, log: seq<Tile>, start: nat,
                                    end: nat, h: nat, g: nat)
    requires Stored(l, hs, log, start, end) && Sized(l, hs, |mem|) && h < |hs| && g < |hs| && Saved(hs[g])
    requires SlotHolds(l, mem, hs, g) || g == h
    ensures SlotHolds(l, StashOne(l, mem, hs, h), hs, g)
  {
    if Saved(hs[h]) {
      hide Copy, Stored;
      SlotFits(l, h, |mem|);
      SlotFits(l, g, |mem|);
      assert hs[h].Within(|mem|) && hs[g].Within(|mem|);
      HeaderKept(l, mem, hs, log, start, end, h, g);
      CopyLands(mem, l.Slot(h), hs[h].pointer.addr, hs[h].size);
      if g < h {
        SlotsInOrder(l, g, h);
      } else if h < g {
        SlotsInOrder(l, h, g);
      }
      if g != h {
        CopyElsewhere(mem, l.Slot(h), hs[h].pointer.addr, hs[h].size, l.Slot(g), hs[g].size);
      }
    }
  }
}
