/** Bytes of a message buffer: numbers in host (little-endian) and network order, and byte ranges. */
module Wire {
  import opened Memory

  /** The size of the header of every message: version, type, length at 2, xid at 4. */
  const HEADER_SIZE: nat := 8

  /** The little-endian number in `s`. */
  function Number(s: seq<Byte>): nat {
    if s == [] then 0 else s[0] + 256 * Number(s[1..])
  }

  /** The `n` low bytes of `v`, least significant first. */
  function ToBytes(v: nat, n: nat): (s: seq<Byte>)
    ensures |s| == n
    decreases n
  {
    if n == 0 then [] else [v % 256] + ToBytes(v / 256, n - 1)
  }

  function Limit(n: nat): nat {
    if n == 0 then 1 else 256 * Limit(n - 1)
  }

  lemma {:induction false} NumberOfBytes(v: nat, n: nat)
    requires v < Limit(n)
    ensures Number(ToBytes(v, n)) == v
    decreases n
  {
    if n > 0 {
      NumberOfBytes(v / 256, n - 1);
      assert ToBytes(v, n)[1..] == ToBytes(v / 256, n - 1);
    }
  }

  /** The bytes in opposite order: what `htons`, `htonl` and their inverses do. */
  function Reversed(s: seq<Byte>): (r: seq<Byte>)
    ensures |r| == |s|
  {
    seq(|s|, i requires 0 <= i < |s| => s[|s| - 1 - i])
  }

  lemma {:induction false} ReversedTwice(s: seq<Byte>)
    ensures Reversed(Reversed(s)) == s
  {
  }

  /** The number's bytes in network or in host order. */
  function Ordered(v: nat, n: nat, net: bool): (s: seq<Byte>)
    ensures |s| == n
  {
    if net then Reversed(ToBytes(v, n)) else ToBytes(v, n)
  }

  lemma {:induction false} ReversedOrdered(v: nat, n: nat, net: bool)
    ensures Reversed(Ordered(v, n, net)) == Ordered(v, n, !net)
  {
    ReversedTwice(ToBytes(v, n));
  }

  /** The numbers of two and four bytes at `o` in network order. */
  function Big2(b: seq<Byte>, o: nat): nat
    requires o + 2 <= |b|
  {
    256 * b[o] as nat + b[o + 1]
  }

  function Big4(b: seq<Byte>, o: nat): nat
    requires o + 4 <= |b|
  {
    0x100_0000 * b[o] as nat + 0x1_0000 * b[o + 1] as nat + 256 * b[o + 2] as nat + b[o + 3]
  }

  lemma {:induction false} Big2IsNumber(b: seq<Byte>, o: nat)
    requires o + 2 <= |b|
    ensures Number(Reversed(b[o..o + 2])) == Big2(b, o)
  {
    var s := Reversed(b[o..o + 2]);
    assert s == [b[o + 1], b[o]];
    assert s[1..] == [b[o]] && s[1..][1..] == [];
    assert Number(s) == s[0] + 256 * Number(s[1..]) && Number(s[1..]) == b[o] + 256 * Number([]);
  }

  lemma {:induction false} Big4IsNumber(b: seq<Byte>, o: nat)
    requires o + 4 <= |b|
    ensures Number(Reversed(b[o..o + 4])) == Big4(b, o)
  {
    var s := Reversed(b[o..o + 4]);
    assert s == [b[o + 3], b[o + 2], b[o + 1], b[o]];
    assert s[1..] == [b[o + 2], b[o + 1], b[o]] && s[1..][1..] == [b[o + 1], b[o]] && s[1..][1..][1..] == [b[o]];
    assert Number([b[o]]) == b[o] + 256 * Number([]) by { assert [b[o]][1..] == []; }
    assert Number([b[o + 1], b[o]]) == b[o + 1] + 256 * b[o] as nat;
    assert Number(s[1..]) == b[o + 2] + 256 * Number(s[1..][1..]);
  }

  function Put(b: seq<Byte>, o: nat, s: seq<Byte>): (r: seq<Byte>)
    requires o + |s| <= |b|
    ensures |r| == |b|
  {
    b[..o] + s + b[o + |s|..]
  }

  /** Converts the `n`-byte number at `o` between host and network order. */
  function Swap(b: seq<Byte>, o: nat, n: nat): (r: seq<Byte>)
    requires o + n <= |b|
    ensures |r| == |b|
  {
    Put(b, o, Reversed(b[o..o + n]))
  }

  /** The bytes from `lo` up to `hi` are the same in both. */
  ghost predicate Same(b: seq<Byte>, b': seq<Byte>, lo: nat, hi: nat) {
    |b'| == |b| && forall i | lo <= i < hi && i < |b| :: b'[i] == b[i]
  }

  lemma {:induction false} PutLands(b: seq<Byte>, o: nat, s: seq<Byte>)
    requires o + |s| <= |b|
    ensures Put(b, o, s)[o..o + |s|] == s
    ensures Same(b, Put(b, o, s), 0, o) && Same(b, Put(b, o, s), o + |s|, |b|)
  {
  }

  lemma {:induction false} SameSlice(b: seq<Byte>, b': seq<Byte>, lo: nat, hi: nat, i: nat, j: nat)
    requires Same(b, b', lo, hi) && lo <= i <= j <= hi && j <= |b|
    ensures b'[i..j] == b[i..j]
  {
  }

  method PutBytes(buf: array<Byte>, o: nat, s: seq<Byte>)
    requires o + |s| <= buf.Length
    modifies buf
    ensures buf[..] == Put(old(buf[..]), o, s)
  {
    forall i | 0 <= i < |s| {
      buf[o + i] := s[i];
    }
  }

  method SwapBytes(buf: array<Byte>, o: nat, n: nat)
    requires o + n <= buf.Length
    modifies buf
    ensures buf[..] == Swap(old(buf[..]), o, n)
  {
    PutBytes(buf, o, Reversed(buf[..][o..o + n]));
  }
}
