/** Digest messages: a list of field values an lcore sends to the controller. */
module Digests {
  import opened Options
  import opened Memory
  import opened Wire
  import opened Messages
  import opened Codec

  const DIGEST: Byte := 110
  const DIGEST_SIZE: nat := 140         // header, list name at 8, number of fields at 136
  const FIELD_SIZE: nat := 164          // name, length at 128, value at 132
  const MAX_VALUE: nat := 32

  /** A value of `bits` bits, in whole bytes. */
  datatype Field = Field(value: seq<Byte>, bits: nat) {
    predicate Fits() { 0 < bits < Limit(4) && |value| == (bits - 1) / 8 + 1 <= MAX_VALUE }
  }

  function DigestCreated(b: seq<Byte>, name: seq<Byte>): (r: seq<Byte>)
    requires |b| >= DIGEST_SIZE && |name| == NAME_LEN
    ensures |r| == |b|
  {
    Put(Put(Put(Put(HeaderCreated(b), 2, ToBytes(DIGEST_SIZE, 2)), 1, [DIGEST]), READ_SIZE, [0]), HEADER_SIZE, name)
  }

  function FieldAdded(b: seq<Byte>): (r: seq<Byte>)
    requires |b| >= DIGEST_SIZE && Length(b) + FIELD_SIZE <= |b|
    ensures |r| == |b|
  {
    var off := Length(b);
    var counted := Put(Grown(b, FIELD_SIZE), READ_SIZE, [Next(b[READ_SIZE])]);
    Put(Put(counted, off, [0]), off + NAME_LEN, ToBytes(0, 4))
  }

  /** A field added, its value and bit length written, and the length converted. */
  function FieldSent(b: seq<Byte>, f: Field): (r: seq<Byte>)
    requires |b| >= DIGEST_SIZE && f.Fits() && Length(b) + FIELD_SIZE <= |b|
    ensures |r| == |b|
  {
    var off := Length(b);
    Swap(Put(Put(FieldAdded(b), off + 132, f.value), off + NAME_LEN, ToBytes(f.bits, 4)), off + NAME_LEN, 4)
  }

  function FieldsSent(b: seq<Byte>, fs: seq<Field>, max: nat): (r: Option<seq<Byte>>)
    requires DIGEST_SIZE <= |b| && max <= |b| && forall f | f in fs :: f.Fits()
    ensures r.Some? ==> |r.value| == |b|
    decreases |fs|
  {
    if fs == [] then Some(b)
    else
      assert fs[0] in fs;
      if Length(b) + FIELD_SIZE > max then None else FieldsSent(FieldSent(b, fs[0]), fs[1..], max)
  }

  /** A digest as it is put on the output queue; none if it does not fit `max` bytes. */
  function DigestSent(b: seq<Byte>, name: seq<Byte>, fs: seq<Field>, max: nat): (r: Option<seq<Byte>>)
    requires max <= |b| && |name| == NAME_LEN && forall f | f in fs :: f.Fits()
    ensures r.Some? ==> |r.value| == |b| && DIGEST_SIZE < max
  {
    if DIGEST_SIZE >= max then None
    else
      match FieldsSent(DigestCreated(b, name), fs, max)
      case None => None
      case Some(b1) => Some(HeaderConverted(b1))
  }

  // ---------------------------------------------------------------- the parts

  ghost predicate FieldAt(b: seq<Byte>, off: nat, f: Field, net: bool) {
    && f.Fits() && off + FIELD_SIZE <= |b|
    && b[off + NAME_LEN..off + 132] == Ordered(f.bits, 4, net)
    && b[off + 132..off + 132 + |f.value|] == f.value
  }

  ghost predicate FieldsAt(b: seq<Byte>, off: nat, fs: seq<Field>)
    decreases |fs|
  {
    fs != [] ==> FieldAt(b, off, fs[0], true) && FieldsAt(b, off + FIELD_SIZE, fs[1..])
  }

  lemma {:induction false} FieldStays(b: seq<Byte>, b': seq<Byte>, off: nat, f: Field, net: bool)
    requires FieldAt(b, off, f, net) && Same(b, b', off, off + FIELD_SIZE)
    ensures FieldAt(b', off, f, net)
  {
    hide Ordered;
    SameSlice(b, b', off, off + FIELD_SIZE, off + NAME_LEN, off + 132);
    SameSlice(b, b', off, off + FIELD_SIZE, off + 132, off + 132 + |f.value|);
  }

  lemma {:induction false} FieldsStay(b: seq<Byte>, b': seq<Byte>, off: nat, fs: seq<Field>)
    requires FieldsAt(b, off, fs) && Same(b, b', off, |b|)
    ensures FieldsAt(b', off, fs)
    decreases |fs|
  {
    hide FieldAt;
    if fs != [] {
      FieldStays(b, b', off, fs[0], true);
      FieldsStay(b, b', off + FIELD_SIZE, fs[1..]);
    }
  }

  lemma {:induction false} FieldAddedParts(b: seq<Byte>)
    requires |b| >= DIGEST_SIZE && DIGEST_SIZE <= Length(b) && Length(b) + FIELD_SIZE <= |b|
    requires Length(b) + FIELD_SIZE < 65536
    ensures var b', off := FieldAdded(b), Length(b);
            && Length(b') == off + FIELD_SIZE && b'[READ_SIZE] == Next(b[READ_SIZE])
            && Same(b, b', 0, 2) && Same(b, b', 4, READ_SIZE) && Same(b, b', READ_SIZE + 1, off)
  {
    hide Put, Grown, Length, ToBytes;
    var off := Length(b);
    var b1 := Grown(b, FIELD_SIZE);
    GrownLength(b, FIELD_SIZE);
    PutLands(b1, READ_SIZE, [Next(b[READ_SIZE])]);
    var b2 := Put(b1, READ_SIZE, [Next(b[READ_SIZE])]);
    assert b2[READ_SIZE] == b2[READ_SIZE..READ_SIZE + 1][0];
    PutLands(b2, off, [0]);
    PutLands(Put(b2, off, [0]), off + NAME_LEN, ToBytes(0, 4));
    LengthStays(b1, FieldAdded(b));
  }

  lemma {:induction false} FieldSentParts(b: seq<Byte>, f: Field)
    requires |b| >= DIGEST_SIZE && DIGEST_SIZE <= Length(b) && Length(b) + FIELD_SIZE <= |b|
    requires Length(b) + FIELD_SIZE < 65536
    requires f.Fits()
    ensures var b', off := FieldSent(b, f), Length(b);
            && Length(b') == off + FIELD_SIZE && b'[READ_SIZE] == Next(b[READ_SIZE]) && FieldAt(b', off, f, true)
            && Same(b, b', 0, 2) && Same(b, b', 4, READ_SIZE) && Same(b, b', READ_SIZE + 1, off)
  {
    hide Put, Length, FieldAdded, ToBytes;
    var off := Length(b);
    FieldAddedParts(b);
    var b1 := FieldAdded(b);
    var b2 := Put(b1, off + 132, f.value);
    var b3 := Put(b2, off + NAME_LEN, ToBytes(f.bits, 4));
    var b4 := Swap(b3, off + NAME_LEN, 4);
    PutLands(b1, off + 132, f.value);
    PutLands(b2, off + NAME_LEN, ToBytes(f.bits, 4));
    PutLands(b3, off + NAME_LEN, Reversed(b3[off + NAME_LEN..off + 132]));
    SameSlice(b2, b3, off + 132, |b|, off + 132, off + 132 + |f.value|);
    SameSlice(b3, b4, off + 132, |b|, off + 132, off + 132 + |f.value|);
    LengthStays(b1, b4);
  }

  lemma {:induction false} FieldsSentParts(b: seq<Byte>, fs: seq<Field>, max: nat)
    requires DIGEST_SIZE <= |b| && DIGEST_SIZE <= Length(b) <= max <= |b| && max < 65536
    requires forall f | f in fs :: f.Fits()
    ensures FieldsSent(b, fs, max).Some? <==> Length(b) + FIELD_SIZE * |fs| <= max
    ensures FieldsSent(b, fs, max).Some? ==>
              var b', off := FieldsSent(b, fs, max).value, Length(b);
              && Length(b') == off + FIELD_SIZE * |fs| && b'[READ_SIZE] == Counted(b[READ_SIZE], |fs|) && FieldsAt(b', off, fs)
              && Same(b, b', 0, 2) && Same(b, b', 4, READ_SIZE) && Same(b, b', READ_SIZE + 1, off)
    decreases |fs|
  {
    hide Length, FieldSent, FieldAt, Field.Fits, Next;
    if fs != [] && Length(b) + FIELD_SIZE <= max {
      var f, off := fs[0], Length(b);
      assert f in fs;
      FieldSentParts(b, f);
      var b1 := FieldSent(b, f);
      FieldsSentParts(b1, fs[1..], max);
      if FieldsSent(b, fs, max).Some? {
        FieldStays(b1, FieldsSent(b, fs, max).value, off, f, true);
      }
    }
  }

  lemma {:induction false} DigestCreatedParts(b: seq<Byte>, name: seq<Byte>)
    requires |b| >= DIGEST_SIZE && |name| == NAME_LEN
    ensures var b' := DigestCreated(b, name);
            Length(b') == DIGEST_SIZE && b'[1] == DIGEST && b'[READ_SIZE] == 0 && b'[HEADER_SIZE..READ_SIZE] == name
  {
    hide Put, ToBytes, HeaderCreated, Number;
    var b0 := HeaderCreated(b);
    var b1 := Put(b0, 2, ToBytes(DIGEST_SIZE, 2));
    var b2 := Put(b1, 1, [DIGEST]);
    var b3 := Put(b2, READ_SIZE, [0]);
    PutLands(b0, 2, ToBytes(DIGEST_SIZE, 2));
    PutLands(b1, 1, [DIGEST]);
    PutLands(b2, READ_SIZE, [0]);
    PutLands(b3, HEADER_SIZE, name);
    assert b2[1] == b2[1..2][0] && b3[READ_SIZE] == b3[READ_SIZE..READ_SIZE + 1][0];
    assert Same(b1, DigestCreated(b, name), 2, 4);
    SameSlice(b1, DigestCreated(b, name), 2, 4, 2, 4);
    assert Limit(2) == 256 * Limit(1) && Limit(1) == 256 * Limit(0);
    NumberOfBytes(DIGEST_SIZE, 2);
  }

  lemma {:induction false} FieldAtIndex(b: seq<Byte>, off: nat, fs: seq<Field>, i: nat)
    requires FieldsAt(b, off, fs) && i < |fs|
    ensures FieldAt(b, off + FIELD_SIZE * i, fs[i], true)
    decreases |fs|
  {
    hide FieldAt;
    if i > 0 {
      FieldAtIndex(b, off + FIELD_SIZE, fs[1..], i - 1);
    }
  }

  /** Reading a field converts its length first. */
  function ReadField(b: seq<Byte>, off: nat): Option<Field> {
    if off + FIELD_SIZE > |b| then None
    else
      var b' := Swap(b, off + NAME_LEN, 4);
      var bits := Number(b'[off + NAME_LEN..off + 132]);
      var n := if bits == 0 then 0 else (bits - 1) / 8 + 1;
      if n > MAX_VALUE then None else Some(Field(b'[off + 132..off + 132 + n], bits))
  }

  lemma {:induction false} ReadFieldAt(b: seq<Byte>, off: nat, f: Field)
    requires FieldAt(b, off, f, true)
    ensures ReadField(b, off) == Some(f)
  {
    hide Put, ToBytes, Number;
    var b' := Swap(b, off + NAME_LEN, 4);
    PutLands(b, off + NAME_LEN, Reversed(b[off + NAME_LEN..off + 132]));
    ReversedOrdered(f.bits, 4, true);
    SameSlice(b, b', off + 132, |b|, off + 132, off + 132 + |f.value|);
    NumberOfBytes(f.bits, 4);
  }

  lemma {:induction false} CountedWraps(n: Byte, k: nat)
    ensures Counted(n, k) == (n + k) % 256
    decreases k
  {
    if k > 0 {
      CountedWraps(Next(n), k - 1);
    }
  }

  /** The round trip for digests: it fits exactly if its fields do, the header length matches, so does the
      count (in its one byte), and a reader that steps from field to field gets the values and bit lengths
      that were added. A cell of 2048 bytes takes eleven fields. */
  lemma {:induction false} DigestRoundTrip(b: seq<Byte>, name: seq<Byte>, fs: seq<Field>, max: nat)
    requires max <= |b| && max < 65536 && |name| == NAME_LEN && forall f | f in fs :: f.Fits()
    ensures DigestSent(b, name, fs, max).Some? <==> DIGEST_SIZE < max && DIGEST_SIZE + FIELD_SIZE * |fs| <= max
    ensures DigestSent(b, name, fs, max).Some? ==>
              var d := DigestSent(b, name, fs, max).value;
              && Number(Reversed(d[2..4])) == DIGEST_SIZE + FIELD_SIZE * |fs| && d[READ_SIZE] == |fs| % 256
              && d[1] == DIGEST && d[HEADER_SIZE..READ_SIZE] == name
              && forall i | 0 <= i < |fs| :: ReadField(d, DIGEST_SIZE + FIELD_SIZE * i) == Some(fs[i])
  {
    hide DigestCreated, FieldsSent, HeaderConverted, Length, ReadField, FieldsAt, Counted, Field.Fits;
    if DIGEST_SIZE < max {
      var b0 := DigestCreated(b, name);
      DigestCreatedParts(b, name);
      FieldsSentParts(b0, fs, max);
      var r := FieldsSent(b0, fs, max);
      if r.Some? {
        var d := HeaderConverted(r.value);
        DigestHeader(b0, r.value, name, |fs|);
        FieldsStay(r.value, d, DIGEST_SIZE, fs);
        forall i | 0 <= i < |fs| ensures ReadField(d, DIGEST_SIZE + FIELD_SIZE * i) == Some(fs[i]) {
          FieldAtIndex(d, DIGEST_SIZE, fs, i);
          ReadFieldAt(d, DIGEST_SIZE + FIELD_SIZE * i, fs[i]);
        }
      }
    }
  }

  lemma {:induction false} DigestHeader(b: seq<Byte>, b1: seq<Byte>, name: seq<Byte>, n: nat)
    requires |b1| == |b| >= DIGEST_SIZE && b[1] == DIGEST && b[HEADER_SIZE..READ_SIZE] == name
    requires Same(b, b1, 0, 2) && Same(b, b1, 4, READ_SIZE) && b1[READ_SIZE] == Counted(0, n)
    ensures var d := HeaderConverted(b1);
            && Number(Reversed(d[2..4])) == Length(b1) && d[READ_SIZE] == n % 256 && d[1] == DIGEST
            && d[HEADER_SIZE..READ_SIZE] == name && Same(b1, d, HEADER_SIZE, |b1|)
  {
    hide Number, Put;
    var d := HeaderConverted(b1);
    CountedWraps(0, n);
    var half := Swap(b1, 2, 2);
    PutLands(b1, 2, Reversed(b1[2..4]));
    PutLands(half, 4, Reversed(half[4..8]));
    SameSlice(half, d, 0, 4, 2, 4);
    ReversedTwice(b1[2..4]);
    SameSlice(b, b1, 4, READ_SIZE, HEADER_SIZE, READ_SIZE);
    SameSlice(b1, d, HEADER_SIZE, |b1|, HEADER_SIZE, READ_SIZE);
  }

  // ---------------------------------------------------------------- building in place

  /** `NoRoom`: the program goes on with a null pointer. `TooLong`: the field has been added, but is left
      without a value. */
  datatype Adding = Done | TooLong | NoRoom

  method CreateDigest(buf: array<Byte>, maxLength: nat, name: seq<Byte>) returns (ok: bool)
    requires maxLength <= buf.Length && |name| == NAME_LEN
    modifies buf
    ensures ok <==> DIGEST_SIZE < maxLength
    ensures ok ==> buf[..] == DigestCreated(old(buf[..]), name)
  {
    if DIGEST_SIZE >= maxLength {
      return false;
    }
    hide Put;
    PutBytes(buf, 0, [P4_VERSION, 0] + ToBytes(HEADER_SIZE, 2) + ToBytes(0, 4));
    PutBytes(buf, 2, ToBytes(DIGEST_SIZE, 2));
    PutBytes(buf, 1, [DIGEST]);
    PutBytes(buf, READ_SIZE, [0]);
    PutBytes(buf, HEADER_SIZE, name);
    return true;
  }

  method AddDigestField(buf: array<Byte>, maxLength: nat, value: seq<Byte>, bits: nat) returns (r: Adding)
    requires DIGEST_SIZE <= buf.Length && maxLength <= buf.Length && 0 < bits < Limit(4)
    requires |value| == (bits - 1) / 8 + 1
    modifies buf
    ensures r.NoRoom? <==> old(Length(buf[..])) + FIELD_SIZE > maxLength
    ensures !r.NoRoom? ==> (r.Done? <==> |value| <= 32)
    ensures r.Done? ==> Field(value, bits).Fits() && buf[..] == FieldSent(old(buf[..]), Field(value, bits))
    ensures r.TooLong? ==> |value| > MAX_VALUE && buf[..] == FieldAdded(old(buf[..]))
    ensures r.NoRoom? ==> buf[..] == old(buf[..])
  {
    hide Put, Length, ToBytes;
    var off := Length(buf[..]);
    if off + FIELD_SIZE > maxLength {
      return NoRoom;
    }
    var count := Next(buf[READ_SIZE]);
    PutBytes(buf, 2, ToBytes(off + FIELD_SIZE, 2));
    PutBytes(buf, READ_SIZE, [count]);
    PutBytes(buf, off, [0]);
    PutBytes(buf, off + NAME_LEN, ToBytes(0, 4));
    if |value| > MAX_VALUE {
      return TooLong;
    }
    PutBytes(buf, off + 132, value);
    PutBytes(buf, off + NAME_LEN, ToBytes(bits, 4));
    SwapBytes(buf, off + NAME_LEN, 4);
    return Done;
  }
}
