/** Header fields that start and end inside bytes, read and written through 8, 16 or 32 bit little-endian
    loads, byte swaps, shifts and the masks of the generated field table.

    Packet memory is looked at bit by bit in network order: bit 0 is the most significant bit of the first
    byte. The specification of an access is which of these bits it returns or replaces. */
module Fields {
  import opened Sequences
  import opened Bits
  import opened Memory
  import opened Words
  import Wire

  // ---------------------------------------------------------------- memory as a row of bits

  predicate MemBit(mem: seq<Byte>, q: nat)
    requires q < 8 * |mem|
  {
    Bit(mem[q / 8], 7 - q % 8)
  }

  /** The unsigned big-endian number in the `w` bits from bit `p` on. */
  function FieldValue(mem: seq<Byte>, p: nat, w: nat): nat
    requires p + w <= 8 * |mem|
  {
    if w == 0 then 0 else 2 * FieldValue(mem, p, w - 1) + (if MemBit(mem, p + w - 1) then 1 else 0)
  }

  /** `mem'` is `mem` with the `w` bits from bit `p` on replaced by the low `w` bits of `v`. */
  ghost predicate Written(mem: seq<Byte>, mem': seq<Byte>, p: nat, w: nat, v: nat) {
    && |mem'| == |mem|
    && p + w <= 8 * |mem|
    && forall q: nat | q < 8 * |mem| ::
         MemBit(mem', q) == if p <= q < p + w then Bit(v, p + w - 1 - q) else MemBit(mem, q)
  }

  lemma {:induction false} BitOfFieldValue(mem: seq<Byte>, p: nat, w: nat, k: nat)
    requires p + w <= 8 * |mem|
    ensures Bit(FieldValue(mem, p, w), k) == (k < w && MemBit(mem, p + w - 1 - k))
  {
    if w == 0 {
      BitOfZero(k);
    } else if k > 0 {
      BitOfFieldValue(mem, p, w - 1, k - 1);
    }
  }

  lemma {:induction false} FieldBelow(mem: seq<Byte>, p: nat, w: nat)
    requires p + w <= 8 * |mem|
    ensures FieldValue(mem, p, w) < Pow2(w)
  {
    hide MemBit;
    if w > 0 { FieldBelow(mem, p, w - 1); }
  }

  /** A field is its first `v` bits followed by the others. */
  lemma {:induction false} FieldSplits(mem: seq<Byte>, p: nat, v: nat, w: nat)
    requires p + v + w <= 8 * |mem|
    ensures FieldValue(mem, p, v + w) == Shl(FieldValue(mem, p, v), w) + FieldValue(mem, p + v, w)
    decreases w
  {
    hide MemBit;
    if w > 0 { FieldSplits(mem, p, v, w - 1); }
  }

  lemma {:induction false} BitOfByte(mem: seq<Byte>, a: nat, k: nat)
    requires a < |mem| && k < 8
    ensures MemBit(mem, 8 * a + 7 - k) == Bit(mem[a], k)
  {
    hide Bit;
  }

  lemma {:induction false} FieldOfByte(mem: seq<Byte>, a: nat)
    requires a < |mem|
    ensures FieldValue(mem, 8 * a, 8) == mem[a]
  {
    hide Bit, MemBit, FieldValue;
    var r := FieldValue(mem, 8 * a, 8);
    forall k: nat ensures Bit(r, k) == Bit(mem[a], k) {
      BitOfFieldValue(mem, 8 * a, 8, k);
      if k < 8 { BitOfByte(mem, a, k); } else { BitAbove(mem[a], 8, k); }
    }
    SameBits(r, mem[a]);
  }

  /** Eight bits that start at a byte are that byte, split anywhere into its high and its low bits. */
  lemma {:induction false} FieldsOfByte(mem: seq<Byte>, a: nat, v: nat)
    requires a < |mem| && v <= 8
    ensures FieldValue(mem, 8 * a, 8) == mem[a]
    ensures FieldValue(mem, 8 * a, v) == mem[a] / Pow2(8 - v)
    ensures FieldValue(mem, 8 * a + v, 8 - v) == mem[a] % Pow2(8 - v)
  {
    hide MemBit, FieldValue, Shl, Pow2;
    FieldOfByte(mem, a);
    FieldSplits(mem, 8 * a, v, 8 - v);
    FieldBelow(mem, 8 * a + v, 8 - v);
    ShlIsMul(FieldValue(mem, 8 * a, v), 8 - v);
    DivUnique(mem[a], Pow2(8 - v), FieldValue(mem, 8 * a, v), FieldValue(mem, 8 * a + v, 8 - v));
  }

  lemma {:induction false} BitAddress(p: nat, t: nat)
    ensures (8 * p + t) / 8 == p + t / 8 && (8 * p + t) % 8 == t % 8
  {
  }

  /** Memory is determined by its bits. */
  lemma {:induction false} SameMemory(a: seq<Byte>, b: seq<Byte>)
    requires |a| == |b|
    requires forall q: nat | q < 8 * |a| :: MemBit(a, q) == MemBit(b, q)
    ensures a == b
  {
    forall i | 0 <= i < |a| ensures a[i] == b[i] {
      forall k: nat ensures Bit(a[i], k) == Bit(b[i], k) {
        if k < 8 {
          assert MemBit(a, 8 * i + (7 - k)) == MemBit(b, 8 * i + (7 - k));
        } else {
          Pow2OfBytes(1);
          assert Pow256(1) == 256;
          BitAbove(a[i], 8, k);
          BitAbove(b[i], 8, k);
        }
      }
      SameBits(a[i], b[i]);
    }
  }

  // ---------------------------------------------------------------- loads

  /** Loading four bytes and converting gives the word whose bits are the memory bits, first bit on top. */
  lemma {:induction false} BitOfLoaded(s: seq<Byte>, k: nat)
    requires |s| == 4
    ensures Bit(Swap32(Le32(s[0], s[1], s[2], s[3])), k) == (k < 32 && MemBit(s, 31 - k))
  {
    hide Be32, ByteOf, Bit, Swap32;
    BitOfSwap32(Le32(s[0], s[1], s[2], s[3]), k);
    if k < 32 {
      var j := 8 * (3 - k / 8) + k % 8;
      BitOfBe32([s[3], s[2], s[1], s[0]], j);
      assert (31 - k) / 8 == 3 - k / 8 == j / 8 && 7 - (31 - k) % 8 == k % 8 == j % 8;
    }
  }

  // ---------------------------------------------------------------- the field table

  const NOT0: nat := 0xffff_ffff

  datatype FieldInfo = FieldInfo(size: nat, bitOffset: nat, byteOffset: nat, mask: nat)

  /** The mask the generator writes into the table for a field of `size` bits at bit offset `offset`. */
  function TableMask(size: nat, offset: nat): nat
    requires 1 <= size <= 32
  {
    var shiftUp := (32 - size) % 32;
    var topBits := Combine(And, Shl(NOT0, shiftUp), NOT0);
    Shr(topBits, offset % 8)
  }

  function InfoOf(size: nat, offset: nat): FieldInfo
    requires 1 <= size <= 32
  {
    FieldInfo(size, offset % 8, offset / 8, TableMask(size, offset))
  }

  lemma {:induction false} BitOfNot0(k: nat)
    ensures Bit(NOT0, k) == (k < 32)
  {
    Pow2OfBytes(4);
    assert Pow256(4) == 0x1_0000_0000;
    BitOfOnes(32, k);
  }

  lemma {:induction false} BitOfMask(size: nat, offset: nat, k: nat)
    requires 1 <= size <= 32
    ensures Bit(TableMask(size, offset), k) == (32 <= k + offset % 8 + size && k + offset % 8 < 32)
  {
    hide Bit, Shl, Shr, Combine;
    var up, o := (32 - size) % 32, offset % 8;
    BitOfShr(Combine(And, Shl(NOT0, up), NOT0), o, k);
    BitOfCombine(And, Shl(NOT0, up), NOT0, k + o);
    BitOfShl(NOT0, up, k + o);
    BitOfNot0(k + o);
    if k + o >= up { BitOfNot0(k + o - up); }
  }

  /** The mask selects bit number `t` of the field, counted from its first one. */
  predicate MaskSelects(size: nat, offset: nat, t: nat)
    requires 1 <= size <= 32
  {
    offset % 8 + t < 32 && Bit(TableMask(size, offset), 31 - (offset % 8 + t))
  }

  /** The mask selects all `size` bits of the field if and only if the field ends inside the 32-bit word
      that starts at its first byte. A longer one loses its last bits. */
  lemma {:induction false} MaskCoversField(size: nat, offset: nat)
    requires 1 <= size <= 32
    ensures (forall t: nat | t < size :: MaskSelects(size, offset, t)) <==> offset % 8 + size <= 32
  {
    hide Bit, TableMask;
    if offset % 8 + size <= 32 {
      forall t: nat | t < size ensures MaskSelects(size, offset, t) {
        BitOfMask(size, offset, 31 - (offset % 8 + t));
      }
    } else {
      assert !MaskSelects(size, offset, size - 1);
    }
  }

  // ---------------------------------------------------------------- handles and accessors

  datatype Handle = Handle(pointer: nat, bitwidth: nat, bitoffset: nat, bitcount: nat, bytecount: nat, mask: nat)

  function ToBytes(bits: nat): nat { (bits + 7) / 8 }

  /** The handle of a fixed-width field of the header at address `hdr`. */
  function HandleOf(hdr: nat, fld: FieldInfo): Handle {
    Handle(hdr + fld.byteOffset, fld.size, fld.bitOffset, fld.size + fld.bitOffset,
           ToBytes(fld.size + fld.bitOffset), fld.mask)
  }

  /** `fd` is the handle of a field that fits the word at its first byte. */
  predicate FieldHandle(fd: Handle) {
    && 1 <= fd.bitwidth <= 32 && fd.bitoffset < 8 && fd.bitoffset + fd.bitwidth <= 32
    && fd.bitcount == fd.bitwidth + fd.bitoffset && fd.bytecount == ToBytes(fd.bitcount)
    && fd.mask == TableMask(fd.bitwidth, fd.bitoffset)
  }

  lemma {:induction false} HandleFacts(fd: Handle)
    requires FieldHandle(fd)
    ensures 1 <= fd.bitwidth <= 32 && fd.bitoffset < 8 && fd.bitoffset + fd.bitwidth <= 32
    ensures fd.bytecount == ToBytes(fd.bitoffset + fd.bitwidth)
    ensures forall k: nat :: Bit(fd.mask, k) == (32 <= k + fd.bitoffset + fd.bitwidth && k + fd.bitoffset < 32)
  {
    hide Bit, TableMask;
    forall k: nat ensures Bit(fd.mask, k) == (32 <= k + fd.bitoffset + fd.bitwidth && k + fd.bitoffset < 32) {
      BitOfMask(fd.bitwidth, fd.bitoffset, k);
    }
  }

  /** The bytes of the field, loaded at the width of the smallest host integer that holds them. */
  method FldBytes(mem: array<Byte>, fd: Handle) returns (r: nat)
    requires fd.pointer + fd.bytecount <= mem.Length
    requires fd.bytecount != 1 && fd.bytecount != 2 ==> fd.pointer + 4 <= mem.Length
    ensures r == Loaded(mem[..], fd)
  {
    var p := fd.pointer;
    if fd.bytecount == 1 {
      r := Le32(mem[p], 0, 0, 0);
    } else if fd.bytecount == 2 {
      r := Le32(mem[p], mem[p + 1], 0, 0);
    } else {
      r := Le32(mem[p], mem[p + 1], mem[p + 2], mem[p + 3]);
    }
  }

  /** A narrow load leaves the upper bytes of the result zero. */
  function LoadedBytes(mem: seq<Byte>, fd: Handle): (s: seq<Byte>)
    requires fd.pointer + fd.bytecount <= |mem|
    requires fd.bytecount != 1 && fd.bytecount != 2 ==> fd.pointer + 4 <= |mem|
    ensures |s| == 4
  {
    var p := fd.pointer;
    if fd.bytecount == 1 then [mem[p], 0, 0, 0]
    else if fd.bytecount == 2 then [mem[p], mem[p + 1], 0, 0]
    else [mem[p], mem[p + 1], mem[p + 2], mem[p + 3]]
  }

  function Loaded(mem: seq<Byte>, fd: Handle): nat
    requires fd.pointer + fd.bytecount <= |mem|
    requires fd.bytecount != 1 && fd.bytecount != 2 ==> fd.pointer + 4 <= |mem|
  {
    var s := LoadedBytes(mem, fd);
    Le32(s[0], s[1], s[2], s[3])
  }

  /** Reading a field returns the big-endian number in exactly its bits. */
  method Get32FldImpl(mem: array<Byte>, src: Handle) returns (r: nat)
    requires FieldHandle(src)
    requires src.pointer + src.bytecount <= mem.Length
    requires src.bytecount == 3 ==> src.pointer + 4 <= mem.Length
    ensures 8 * src.pointer + src.bitoffset + src.bitwidth <= 8 * mem.Length
    ensures r == FieldValue(mem[..], 8 * src.pointer + src.bitoffset, src.bitwidth)
  {
    hide Bit, Combine, Shr, Shl, Low, Pow2, Le32, ByteOf, FieldValue;
    HandleFacts(src);
    var bytes := FldBytes(mem, src);
    var masked := Combine(And, Swap32(bytes), src.mask);
    var downshift := 32 - src.bitoffset - src.bitwidth;
    r := Shr(masked, downshift);
    GetIsFieldValue(mem[..], src);
  }

  /** Bit `k` of the loaded and swapped word is memory bit `31 - k` from the start of the field's first byte. */
  lemma {:induction false} LoadedBit(mem: seq<Byte>, fd: Handle, k: nat)
    requires fd.pointer + fd.bytecount <= |mem| && 1 <= fd.bytecount <= 4
    requires fd.bytecount == 3 ==> fd.pointer + 4 <= |mem|
    requires k < 32 && (31 - k) / 8 < fd.bytecount
    ensures Bit(Swap32(Loaded(mem, fd)), k) == MemBit(mem, 8 * fd.pointer + (31 - k))
  {
    hide Bit, Swap32, Le32;
    var s := LoadedBytes(mem, fd);
    BitOfLoaded(s, k);
    BitAddress(fd.pointer, 31 - k);
    assert s[(31 - k) / 8] == mem[fd.pointer + (31 - k) / 8];
  }

  lemma {:induction false} GetIsFieldValue(mem: seq<Byte>, fd: Handle)
    requires FieldHandle(fd)
    requires fd.pointer + fd.bytecount <= |mem|
    requires fd.bytecount == 3 ==> fd.pointer + 4 <= |mem|
    ensures fd.bitoffset + fd.bitwidth <= 32 && 1 <= fd.bytecount <= 4
    ensures 8 * fd.pointer + fd.bitoffset + fd.bitwidth <= 8 * |mem|
    ensures Shr(Combine(And, Swap32(Loaded(mem, fd)), fd.mask), 32 - fd.bitoffset - fd.bitwidth)
         == FieldValue(mem, 8 * fd.pointer + fd.bitoffset, fd.bitwidth)
  {
    hide Bit, Combine, Shr, Swap32, Le32, Loaded, MemBit, FieldValue;
    HandleFacts(fd);
    var p, down, w := 8 * fd.pointer + fd.bitoffset, 32 - fd.bitoffset - fd.bitwidth, fd.bitwidth;
    var word := Swap32(Loaded(mem, fd));
    var r := Shr(Combine(And, word, fd.mask), down);
    forall k: nat ensures Bit(r, k) == Bit(FieldValue(mem, p, w), k) {
      BitOfShr(Combine(And, word, fd.mask), down, k);
      BitOfCombine(And, word, fd.mask, k + down);
      BitOfFieldValue(mem, p, w, k);
      if k < w { LoadedBit(mem, fd, k + down); }
    }
    SameBits(r, FieldValue(mem, p, w));
  }

  function Window(mem: seq<Byte>, p: nat): (s: seq<Byte>)
    requires p + 4 <= |mem|
    ensures |s| == 4
  {
    [mem[p], mem[p + 1], mem[p + 2], mem[p + 3]]
  }

  /** The word that a write of `v` stores, before conversion to network order. */
  function NewWord(s: seq<Byte>, fd: Handle, v: nat): nat
    requires |s| == 4 && fd.bitoffset + fd.bitwidth <= 32
  {
    var upshift := 32 - fd.bitoffset - fd.bitwidth;
    var oldContent := Combine(And, Swap32(Le32(s[0], s[1], s[2], s[3])), Combine(Xor, fd.mask, NOT0));
    var newContent := Combine(And, Low(Shl(v, upshift), 32), fd.mask);
    Combine(Or, oldContent, newContent)
  }

  /** Writing a field replaces exactly its bits, by the low bits of the value, although four bytes of
      memory are loaded and stored. */
  method Modify32ImplNetOrder(mem: array<Byte>, dst: Handle, value32: nat)
    requires FieldHandle(dst) && dst.pointer + 4 <= mem.Length
    modifies mem
    ensures Written(old(mem[..]), mem[..], 8 * dst.pointer + dst.bitoffset, dst.bitwidth, value32)
  {
    hide Bit, Combine, Shr, Shl, Low, Pow2, Le32, ByteOf, Swap32, Written;
    HandleFacts(dst);
    var p := dst.pointer;
    ghost var before := mem[..];
    var upshift := 32 - dst.bitoffset - dst.bitwidth;
    var oldContent := Combine(And, Swap32(Le32(mem[p], mem[p + 1], mem[p + 2], mem[p + 3])), Combine(Xor, dst.mask, NOT0));
    var newContent := Combine(And, Low(Shl(value32, upshift), 32), dst.mask);
    var stored := Swap32(Combine(Or, oldContent, newContent));
    mem[p] := ByteOf(stored, 0);
    mem[p + 1] := ByteOf(stored, 1);
    mem[p + 2] := ByteOf(stored, 2);
    mem[p + 3] := ByteOf(stored, 3);
    StoreIsWritten(before, mem[..], dst, value32);
  }

  lemma {:induction false} BitOfNewWord(s: seq<Byte>, fd: Handle, v: nat, k: nat)
    requires |s| == 4 && FieldHandle(fd) && k < 32
    ensures fd.bitoffset + fd.bitwidth <= 32
    ensures var down := 32 - fd.bitoffset - fd.bitwidth;
            Bit(NewWord(s, fd, v), k) == if down <= k < down + fd.bitwidth then Bit(v, k - down) else MemBit(s, 31 - k)
  {
    hide Bit, Combine, Shr, Shl, Low, Swap32, Le32;
    HandleFacts(fd);
    var down := 32 - fd.bitoffset - fd.bitwidth;
    var word := Swap32(Le32(s[0], s[1], s[2], s[3]));
    var inv := Combine(Xor, fd.mask, NOT0);
    var shifted := Low(Shl(v, down), 32);
    BitOfCombine(Or, Combine(And, word, inv), Combine(And, shifted, fd.mask), k);
    BitOfCombine(And, word, inv, k);
    BitOfCombine(And, shifted, fd.mask, k);
    BitOfCombine(Xor, fd.mask, NOT0, k);
    BitOfNot0(k);
    BitOfLow(Shl(v, down), 32, k);
    BitOfShl(v, down, k);
    BitOfLoaded(s, k);
  }

  lemma {:induction false} BitOfSwappedByte(word: nat, t: nat)
    requires t < 32
    ensures Bit(ByteOf(Swap32(word), t / 8), 7 - t % 8) == Bit(word, 31 - t)
  {
    hide Bit, Swap32, ByteOf;
    var i, b := t / 8, 7 - t % 8;
    BitOfByteOf(Swap32(word), i, b);
    BitAddress(i, b);
    BitOfSwap32(word, 8 * i + b);
  }

  lemma {:induction false} StoredBit(mem: seq<Byte>, mem': seq<Byte>, fd: Handle, v: nat, t: nat)
    requires FieldHandle(fd) && fd.pointer + 4 <= |mem| && |mem'| == |mem| && t < 32
    requires fd.bitoffset + fd.bitwidth <= 32
    requires forall i | 0 <= i < 4 :: mem'[fd.pointer + i] == ByteOf(Swap32(NewWord(Window(mem, fd.pointer), fd, v)), i)
    ensures MemBit(mem', 8 * fd.pointer + t)
         == if fd.bitoffset <= t < fd.bitoffset + fd.bitwidth then Bit(v, fd.bitoffset + fd.bitwidth - 1 - t)
            else MemBit(mem, 8 * fd.pointer + t)
  {
    hide Bit, NewWord, Swap32, ByteOf, FieldHandle;
    var p, s := fd.pointer, Window(mem, fd.pointer);
    BitAddress(p, t);
    BitOfSwappedByte(NewWord(s, fd, v), t);
    BitOfNewWord(s, fd, v, 31 - t);
    assert s[t / 8] == mem[p + t / 8];
  }

  lemma {:induction false} StoreIsWritten(mem: seq<Byte>, mem': seq<Byte>, fd: Handle, v: nat)
    requires FieldHandle(fd) && fd.pointer + 4 <= |mem| && |mem'| == |mem|
    requires fd.bitoffset + fd.bitwidth <= 32
    requires forall i | 0 <= i < |mem| && !(fd.pointer <= i < fd.pointer + 4) :: mem'[i] == mem[i]
    requires forall i | 0 <= i < 4 :: mem'[fd.pointer + i] == ByteOf(Swap32(NewWord(Window(mem, fd.pointer), fd, v)), i)
    ensures Written(mem, mem', 8 * fd.pointer + fd.bitoffset, fd.bitwidth, v)
  {
    hide Bit, NewWord, Swap32, ByteOf, FieldHandle;
    HandleFacts(fd);
    var p := 8 * fd.pointer;
    forall q: nat | q < 8 * |mem|
      ensures MemBit(mem', q) == if p + fd.bitoffset <= q < p + fd.bitoffset + fd.bitwidth
                                 then Bit(v, p + fd.bitoffset + fd.bitwidth - 1 - q) else MemBit(mem, q)
    {
      if p <= q < p + 32 {
        StoredBit(mem, mem', fd, v, q - p);
      }
    }
  }

  // ---------------------------------------------------------------- laws of reading and writing

  lemma {:induction false} GetAfterSet(mem: seq<Byte>, mem': seq<Byte>, p: nat, w: nat, v: nat)
    requires Written(mem, mem', p, w, v)
    ensures FieldValue(mem', p, w) == Low(v, w)
  {
    hide Bit, Low, FieldValue;
    forall k: nat ensures Bit(FieldValue(mem', p, w), k) == Bit(Low(v, w), k) {
      BitOfFieldValue(mem', p, w, k);
      BitOfLow(v, w, k);
      if k < w { assert MemBit(mem', p + w - 1 - k) == Bit(v, k); }
    }
    SameBits(FieldValue(mem', p, w), Low(v, w));
  }

  lemma {:induction false} SetKeepsOthers(mem: seq<Byte>, mem': seq<Byte>, p: nat, w: nat, v: nat, p2: nat, w2: nat)
    requires Written(mem, mem', p, w, v) && p2 + w2 <= 8 * |mem| && (p2 + w2 <= p || p + w <= p2)
    ensures FieldValue(mem', p2, w2) == FieldValue(mem, p2, w2)
  {
    hide Bit, FieldValue;
    forall k: nat ensures Bit(FieldValue(mem', p2, w2), k) == Bit(FieldValue(mem, p2, w2), k) {
      BitOfFieldValue(mem', p2, w2, k);
      BitOfFieldValue(mem, p2, w2, k);
      if k < w2 { assert MemBit(mem', p2 + w2 - 1 - k) == MemBit(mem, p2 + w2 - 1 - k); }
    }
    SameBits(FieldValue(mem', p2, w2), FieldValue(mem, p2, w2));
  }

  /** Writes of different fields commute, even where the four-byte windows they go through overlap. */
  lemma {:induction false} SetsCommute(mem: seq<Byte>, a: seq<Byte>, ab: seq<Byte>, b: seq<Byte>, ba: seq<Byte>,
                                       p: nat, w: nat, v: nat, p2: nat, w2: nat, v2: nat)
    requires p2 + w2 <= p || p + w <= p2
    requires Written(mem, a, p, w, v) && Written(a, ab, p2, w2, v2)
    requires Written(mem, b, p2, w2, v2) && Written(b, ba, p, w, v)
    ensures ab == ba
  {
    hide Bit;
    forall q: nat | q < 8 * |mem| ensures MemBit(ab, q) == MemBit(ba, q) {
    }
    SameMemory(ab, ba);
  }

  // ---------------------------------------------------------------- whole headers

  /** Every field fits the word at its first byte. */
  predicate WordFields(widths: seq<nat>) {
    forall i | 0 <= i < |widths| :: 1 <= widths[i] <= 32 && Offset(widths, i) % 8 + widths[i] <= 32
  }

  /** What field `i` of the header at `hdr` holds. */
  function FieldOf(mem: seq<Byte>, hdr: nat, widths: seq<nat>, i: nat): nat
    requires i < |widths| && 8 * hdr + Offset(widths, i) + widths[i] <= 8 * |mem|
  {
    FieldValue(mem, 8 * hdr + Offset(widths, i), widths[i])
  }

  lemma {:induction false} FieldsOfTwoBytes(mem: seq<Byte>, a: nat, v: nat)
    requires a + 2 <= |mem| && v <= 8
    ensures FieldValue(mem, 8 * a, 16) == Wire.Big2(mem, a)
    ensures FieldValue(mem, 8 * a + v, 16 - v) == 256 * (mem[a] as nat % Pow2(8 - v)) + mem[a + 1]
  {
    hide FieldValue, Pow2, Shl;
    FieldsOfByte(mem, a, v);
    FieldsOfByte(mem, a + 1, 0);
    FieldSplits(mem, 8 * a, 8, 8);
    FieldSplits(mem, 8 * a + v, 8 - v, 8);
    ShlIsMul(FieldValue(mem, 8 * a, 8), 8);
    ShlIsMul(FieldValue(mem, 8 * a + v, 8 - v), 8);
    Pow2Small();
  }

  lemma {:induction false} FieldOfFourBytes(mem: seq<Byte>, a: nat)
    requires a + 4 <= |mem|
    ensures FieldValue(mem, 8 * a, 32) == Wire.Big4(mem, a)
  {
    hide FieldValue, Pow2, Shl;
    FieldsOfTwoBytes(mem, a, 0);
    FieldsOfTwoBytes(mem, a + 2, 0);
    FieldSplits(mem, 8 * a, 16, 16);
    ShlIsMul(FieldValue(mem, 8 * a, 16), 16);
    Pow2Small();
  }

  lemma {:induction false} Pow2Small()
    ensures Pow2(4) == 16 && Pow2(5) == 32 && Pow2(8) == 256 && Pow2(16) == 0x1_0000
  {
    assert Pow2(5) == 2 * Pow2(4) && Pow2(4) == 16;
    Pow2OfBytes(1);
    Pow2OfBytes(2);
    assert Pow256(2) == 0x1_0000 && Pow256(1) == 256;
  }

  /** The fields of an IPv4 header: version, header length, differentiated services, total length,
      identification, flags, fragment offset, time to live, protocol, checksum, source, destination. */
  const IPV4: seq<nat> := [4, 4, 8, 16, 16, 3, 13, 8, 8, 16, 32, 32]

  lemma {:induction false} Ipv4Offsets()
    ensures Offset(IPV4, 0) == 0 && Offset(IPV4, 1) == 4 && Offset(IPV4, 2) == 8 && Offset(IPV4, 3) == 16
    ensures Offset(IPV4, 4) == 32 && Offset(IPV4, 5) == 48 && Offset(IPV4, 6) == 51 && Offset(IPV4, 7) == 64
    ensures Offset(IPV4, 8) == 72 && Offset(IPV4, 9) == 80 && Offset(IPV4, 10) == 96 && Offset(IPV4, 11) == 128
    ensures WordFields(IPV4)
  {
    assert Offset(IPV4, 1) == Offset(IPV4, 0) + 4 && Offset(IPV4, 2) == Offset(IPV4, 1) + 4;
    assert Offset(IPV4, 3) == Offset(IPV4, 2) + 8 && Offset(IPV4, 4) == Offset(IPV4, 3) + 16;
    assert Offset(IPV4, 5) == Offset(IPV4, 4) + 16 && Offset(IPV4, 6) == Offset(IPV4, 5) + 3;
    assert Offset(IPV4, 7) == Offset(IPV4, 6) + 13 && Offset(IPV4, 8) == Offset(IPV4, 7) + 8;
    assert Offset(IPV4, 9) == Offset(IPV4, 8) + 8 && Offset(IPV4, 10) == Offset(IPV4, 9) + 16;
    assert Offset(IPV4, 11) == Offset(IPV4, 10) + 32;
  }

  /** Every field of every IPv4 header, by its bytes. */
  lemma {:induction false} Ipv4Fields(mem: seq<Byte>, hdr: nat)
    requires hdr + 20 <= |mem|
    ensures Offset(IPV4, 12) == 160
    ensures forall i | 0 <= i < 12 :: Offset(IPV4, i) + IPV4[i] <= 160
    ensures FieldOf(mem, hdr, IPV4, 0) == mem[hdr] / 16 && FieldOf(mem, hdr, IPV4, 1) == mem[hdr] % 16
    ensures FieldOf(mem, hdr, IPV4, 2) == mem[hdr + 1]
    ensures FieldOf(mem, hdr, IPV4, 3) == Wire.Big2(mem, hdr + 2)
    ensures FieldOf(mem, hdr, IPV4, 4) == Wire.Big2(mem, hdr + 4)
    ensures FieldOf(mem, hdr, IPV4, 5) == mem[hdr + 6] / 32
    ensures FieldOf(mem, hdr, IPV4, 6) == 256 * (mem[hdr + 6] as nat % 32) + mem[hdr + 7]
    ensures FieldOf(mem, hdr, IPV4, 7) == mem[hdr + 8] && FieldOf(mem, hdr, IPV4, 8) == mem[hdr + 9]
    ensures FieldOf(mem, hdr, IPV4, 9) == Wire.Big2(mem, hdr + 10)
    ensures FieldOf(mem, hdr, IPV4, 10) == Wire.Big4(mem, hdr + 12)
    ensures FieldOf(mem, hdr, IPV4, 11) == Wire.Big4(mem, hdr + 16)
  {
    hide FieldValue, Pow2;
    Ipv4Offsets();
    Pow2Small();
    FieldsOfByte(mem, hdr, 4);
    FieldsOfByte(mem, hdr + 1, 0);
    FieldsOfTwoBytes(mem, hdr + 2, 0);
    FieldsOfTwoBytes(mem, hdr + 4, 0);
    FieldsOfByte(mem, hdr + 6, 3);
    FieldsOfTwoBytes(mem, hdr + 6, 3);
    FieldsOfByte(mem, hdr + 8, 0);
    FieldsOfByte(mem, hdr + 9, 0);
    FieldsOfTwoBytes(mem, hdr + 10, 0);
    FieldOfFourBytes(mem, hdr + 12);
    FieldOfFourBytes(mem, hdr + 16);
  }

  datatype FieldWrite = FieldWrite(fld: nat, value: nat)

  /** What field `i` of width `w` holds after the writes: the last value written to it, truncated. */
  function LastWritten(writes: seq<FieldWrite>, i: nat, w: nat, initial: nat): nat {
    if writes == [] then initial
    else
      var last := writes[|writes| - 1];
      if last.fld == i then Low(last.value, w) else LastWritten(writes[..|writes| - 1], i, w, initial)
  }

  /** `mems` are the memories before, between and after the writes to the header at address `hdr`. */
  ghost predicate WriteTrace(mems: seq<seq<Byte>>, hdr: nat, widths: seq<nat>, writes: seq<FieldWrite>) {
    && |mems| == |writes| + 1
    && forall k | 0 <= k < |writes| ::
         && writes[k].fld < |widths|
         && Written(mems[k], mems[k + 1], 8 * hdr + Offset(widths, writes[k].fld), widths[writes[k].fld], writes[k].value)
  }

  /** Packing and unpacking: after any sequence of writes to the fields of a header, in any order, every field
      reads back as the last value written to it modulo 2^width, and as before if it was not written. */
  lemma {:induction false} PackUnpack(mems: seq<seq<Byte>>, hdr: nat, widths: seq<nat>, writes: seq<FieldWrite>, i: nat)
    requires WriteTrace(mems, hdr, widths, writes) && i < |widths|
    requires 8 * hdr + Offset(widths, i) + widths[i] <= 8 * |mems[0]|
    ensures |mems[|writes|]| == |mems[0]|
    ensures var p := 8 * hdr + Offset(widths, i);
            FieldValue(mems[|writes|], p, widths[i]) == LastWritten(writes, i, widths[i], FieldValue(mems[0], p, widths[i]))
    decreases |writes|
  {
    hide FieldValue, Low, MemBit;
    if writes != [] {
      var n := |writes| - 1;
      var last := writes[n];
      PackUnpack(mems[..n + 1], hdr, widths, writes[..n], i);
      var p, w := 8 * hdr + Offset(widths, last.fld), widths[last.fld];
      if last.fld == i {
        GetAfterSet(mems[n], mems[n + 1], p, w, last.value);
      } else {
        if last.fld < i { OffsetsInOrder(widths, last.fld, i); } else { OffsetsInOrder(widths, i, last.fld); }
        SetKeepsOthers(mems[n], mems[n + 1], p, w, last.value, 8 * hdr + Offset(widths, i), widths[i]);
      }
    }
  }

  /** The handle of a field points at the field's first byte and knows its first bit. */
  lemma {:induction false} HandleAddress(hdr: nat, size: nat, offset: nat)
    requires 1 <= size <= 32 && offset % 8 + size <= 32
    ensures var fd := HandleOf(hdr, InfoOf(size, offset));
            && FieldHandle(fd) && fd.pointer == hdr + offset / 8 && fd.bitwidth == size && 1 <= fd.bytecount <= 4
            && 8 * fd.pointer + fd.bitoffset == 8 * hdr + offset
  {
    hide Shr, Combine, Shl;
  }

  /** Sets a field of a header in the packet. */
  method SetFld(mem: array<Byte>, hdr: nat, widths: seq<nat>, i: nat, value32: nat)
    requires WordFields(widths) && i < |widths| && hdr + Offset(widths, i) / 8 + 4 <= mem.Length
    modifies mem
    ensures Written(old(mem[..]), mem[..], 8 * hdr + Offset(widths, i), widths[i], value32)
  {
    hide Written, FieldHandle, HandleOf, InfoOf, Offset;
    var fd := HandleOf(hdr, InfoOf(widths[i], Offset(widths, i)));
    HandleAddress(hdr, widths[i], Offset(widths, i));
    Modify32ImplNetOrder(mem, fd, value32);
  }

  /** Reads a field of a header in the packet. */
  method GetFld(mem: array<Byte>, hdr: nat, widths: seq<nat>, i: nat) returns (r: nat)
    requires WordFields(widths) && i < |widths| && hdr + Offset(widths, i) / 8 + 4 <= mem.Length
    ensures 8 * hdr + Offset(widths, i) + widths[i] <= 8 * mem.Length
    ensures r == FieldOf(mem[..], hdr, widths, i)
  {
    hide FieldValue, FieldHandle, HandleOf, InfoOf, Offset;
    var fd := HandleOf(hdr, InfoOf(widths[i], Offset(widths, i)));
    HandleAddress(hdr, widths[i], Offset(widths, i));
    r := Get32FldImpl(mem, fd);
  }
}
