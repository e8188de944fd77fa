/** The messages byte by byte, as the C structures and network order have them: every offset, size and type code
    is written out here. */
module OnTheWire {
  import opened Options
  import opened Sequences
  import opened Memory
  import opened Wire
  import opened Messages
  import opened Codec
  import opened Handlers
  import opened RoundTrip
  import opened Digests

  // ---------------------------------------------------------------- numbers in network order

  lemma {:induction false} Big2Ordered(b: seq<Byte>, o: nat, v: nat)
    requires o + 2 <= |b| && b[o..o + 2] == Ordered(v, 2, true) && v < 65536
    ensures Big2(b, o) == v
  {
    hide ToBytes, Number, Limit;
    Big2IsNumber(b, o);
    ReversedTwice(ToBytes(v, 2));
    SmallNumber(v);
  }

  lemma {:induction false} Big4Ordered(b: seq<Byte>, o: nat, v: nat)
    requires o + 4 <= |b| && b[o..o + 4] == Ordered(v, 4, true) && v < Limit(4)
    ensures Big4(b, o) == v
  {
    hide ToBytes, Number, Limit;
    Big4IsNumber(b, o);
    ReversedTwice(ToBytes(v, 4));
    NumberOfBytes(v, 4);
  }

  // ---------------------------------------------------------------- table entries and default actions

  function MatchBytesSize(m: Match): nat {
    match m
    case Exact(_, _, _) => 388
    case Ternary(_, _, _, _, _) => 646
    case Lpm(_, _, _) => 388
    case Range(_, _, _, _, _) => 646
    case Valid(_, _, _, _) => 390
  }

  ghost predicate MatchBytes(b: seq<Byte>, a: nat, m: Match) {
    && a + MatchBytesSize(m) <= |b|
    && b[a..a + 128] == m.name
    && match m
       case Exact(_, length, bitmap) => b[a + 128] == 0 && Big2(b, a + 130) == length && b[a + 132..a + 388] == bitmap
       case Ternary(_, length, priority, bitmap, mask) =>
         && b[a + 128] == 1 && Big2(b, a + 130) == length && b[a + 132] == priority
         && b[a + 133..a + 389] == bitmap && b[a + 389..a + 645] == mask
       case Lpm(_, prefix, bitmap) => b[a + 128] == 2 && Big2(b, a + 130) == prefix && b[a + 132..a + 388] == bitmap
       case Range(_, length, isSigned, lo, hi) =>
         && b[a + 128] == 3 && Big2(b, a + 130) == length && b[a + 132] == isSigned
         && b[a + 133..a + 389] == lo && b[a + 389..a + 645] == hi
       case Valid(_, length, isValid, bitmap) =>
         && b[a + 128] == 4 && Big2(b, a + 130) == length && b[a + 132] == isValid && b[a + 133..a + 389] == bitmap
  }

  ghost predicate ParamBytes(b: seq<Byte>, a: nat, p: Param) {
    a + 260 <= |b| && b[a..a + 128] == p.name && Big4(b, a + 128) == p.length && b[a + 132..a + 260] == p.bitmap
  }

  /** The header: version 1, type, length and transaction id. */
  ghost predicate HeaderBytes(b: seq<Byte>, kind: Byte, length: nat, xid: nat) {
    |b| >= 8 && b[0] == 1 && b[1] == kind && Big2(b, 2) == length && Big4(b, 4) == xid
  }

  /** A table entry of `length` bytes, its matches at the addresses `at` and its action at `act`. */
  ghost predicate EntryBytes(b: seq<Byte>, e: Entry, at: seq<nat>, act: nat, length: nat) {
    && HeaderBytes(b, 104, length, e.xid) && length == act + 130 + 260 * |e.params| <= |b|
    && |at| == |e.matches| && 140 <= act
    && b[8..136] == e.tableName && b[136] == |at|
    && (forall i | 0 <= i < |at| ::
          && at[i] == (if i == 0 then 140 else at[i - 1] + MatchBytesSize(e.matches[i - 1]))
          && MatchBytes(b, at[i], e.matches[i]))
    && act == (if at == [] then 140 else at[|at| - 1] + MatchBytesSize(e.matches[|at| - 1]))
    && b[act] == 0 && b[act + 1..act + 129] == e.actionName && b[act + 129] == |e.params|
    && forall i | 0 <= i < |e.params| :: ParamBytes(b, act + 130 + 260 * i, e.params[i])
  }

  ghost predicate DefaultBytes(b: seq<Byte>, d: DefaultAction, length: nat) {
    && HeaderBytes(b, 103, length, d.xid) && length == 268 + 260 * |d.params|  <= |b|
    && b[8..136] == d.tableName && b[136] == 0 && b[137..265] == d.actionName && b[265] == |d.params|
    && forall i | 0 <= i < |d.params| :: ParamBytes(b, 268 + 260 * i, d.params[i])
  }

  lemma {:induction false} MatchOnTheWire(b: seq<Byte>, a: nat, m: Match)
    requires MatchAt(b, a, m, true)
    ensures MatchBytes(b, a, m) && MatchBytesSize(m) == MatchSize(m.Kind())
  {
    hide Ordered, Big2;
    Big2Ordered(b, a + 130, m.Number());
    var body := b[a + MATCH_BODY..a + MATCH_BODY + |m.Body()|];
    assert body == m.Body();
    if m.Ternary? || m.Range? {
      assert body[0] == b[a + 132] && body[1..257] == b[a + 133..a + 389] && body[257..513] == b[a + 389..a + 645];
    } else if m.Valid? {
      assert body[0] == b[a + 132] && body[1..257] == b[a + 133..a + 389];
    }
  }

  lemma {:induction false} ParamOnTheWire(b: seq<Byte>, a: nat, p: Param)
    requires ParamAt(b, a, p, true)
    ensures ParamBytes(b, a, p)
  {
    hide Ordered, Big4;
    Big4Ordered(b, a + 128, p.length);
  }

  lemma {:induction false} MatchIndex(b: seq<Byte>, off: nat, ms: seq<Match>, i: nat)
    requires MatchesAt(b, off, ms, true) && i < |ms|
    ensures var at := MatchAddrs(ms, off);
            && MatchAt(b, at[i], ms[i], true)
            && at[i] == (if i == 0 then off else at[i - 1] + MatchSize(ms[i - 1].Kind()))
            && (i == |ms| - 1 ==> MatchesEnd(ms, off) == at[i] + MatchSize(ms[i].Kind()))
    decreases |ms|
  {
    hide MatchAt, MatchSize, Match.Kind;
    if i > 0 {
      MatchIndex(b, off + MatchSize(ms[0].Kind()), ms[1..], i - 1);
    }
  }

  lemma {:induction false} ParamIndex(b: seq<Byte>, off: nat, ps: seq<Param>, i: nat)
    requires ParamsAt(b, off, ps, true) && i < |ps|
    ensures ParamAt(b, off + 260 * i, ps[i], true)
    decreases |ps|
  {
    hide ParamAt;
    if i > 0 {
      ParamIndex(b, off + 260, ps[1..], i - 1);
    }
  }

  lemma {:induction false} EntryOnTheWireParts(b: seq<Byte>, e: Entry, length: nat)
    requires EntryAt(b, e, length, false, true) && e.Fits() && length < 65536 && |e.matches| < 256 && |e.params| < 256
    ensures EntryBytes(b, e, MatchAddrs(e.matches, 140), MatchesEnd(e.matches, 140), length)
  {
    hide MatchesAt, ParamsAt, MatchAddrs, MatchesEnd, ParamsEnd, Ordered, Big2, Big4, MatchBytes, ParamBytes, MatchAt, ParamAt,
         Counted, Match.Kind, MatchSize, MatchBytesSize, Limit;
    var at, act := MatchAddrs(e.matches, 140), MatchesEnd(e.matches, 140);
    Big2Ordered(b, 2, length);
    Big4Ordered(b, 4, e.xid);
    CountedSum(0, |e.matches|);
    CountedSum(0, |e.params|);
    FewParams(e.params, act + 130);
    forall i | 0 <= i < |at|
      ensures at[i] == (if i == 0 then 140 else at[i - 1] + MatchBytesSize(e.matches[i - 1]))
      ensures MatchBytes(b, at[i], e.matches[i])
      ensures i == |at| - 1 ==> act == at[i] + MatchBytesSize(e.matches[i])
    {
      MatchIndex(b, 140, e.matches, i);
      MatchOnTheWire(b, at[i], e.matches[i]);
      if i > 0 {
        MatchIndex(b, 140, e.matches, i - 1);
        MatchOnTheWire(b, at[i - 1], e.matches[i - 1]);
      }
    }
    if at == [] { NoMatches(e.matches, 140); }
    forall i | 0 <= i < |e.params| ensures ParamBytes(b, act + 130 + 260 * i, e.params[i]) {
      ParamIndex(b, act + 130, e.params, i);
      ParamOnTheWire(b, act + 130 + 260 * i, e.params[i]);
    }
  }

  lemma {:induction false} NoMatches(ms: seq<Match>, off: nat)
    requires ms == []
    ensures MatchesEnd(ms, off) == off
  {
  }

  function MatchSizes(ms: seq<Match>): (r: seq<nat>)
    ensures |r| == |ms|
  {
    seq(|ms|, i requires 0 <= i < |ms| => MatchBytesSize(ms[i]))
  }

  /** Header, table name and count, then the matches, the action and its parameters. */
  function EntryLength(e: Entry): nat {
    140 + Offset(MatchSizes(e.matches), |e.matches|) + 130 + 260 * |e.params|
  }

  lemma {:induction false} MatchesLength(ms: seq<Match>, off: nat)
    ensures MatchesEnd(ms, off) == off + Offset(MatchSizes(ms), |ms|)
    decreases |ms|
  {
    if ms != [] {
      MatchesLength(ms[1..], off + MatchSize(ms[0].Kind()));
      var first, rest := [MatchBytesSize(ms[0])], MatchSizes(ms[1..]);
      assert MatchSizes(ms) == first + rest;
      assert Offset(first, 1) == Offset(first, 0) + first[0];
      OffsetsAdd(first, rest, |rest|);
    }
  }

  lemma {:induction false} EntryLengthIsSize(e: Entry)
    ensures EntrySize(e) == EntryLength(e)
  {
    MatchesLength(e.matches, 140);
    FewParams(e.params, MatchesEnd(e.matches, 140) + 130);
  }

  /** The sizes of the C types: names of 128 bytes, values of 256 and 128 bytes, numbers of 16 and 32 bits. */
  predicate MatchInRange(m: Match) {
    && |m.name| == 128
    && match m
       case Exact(_, length, bitmap) => length < 65536 && |bitmap| == 256
       case Ternary(_, length, _, bitmap, mask) => length < 65536 && |bitmap| == 256 && |mask| == 256
       case Lpm(_, prefix, bitmap) => prefix < 65536 && |bitmap| == 256
       case Range(_, length, _, lo, hi) => length < 65536 && |lo| == 256 && |hi| == 256
       case Valid(_, length, _, bitmap) => length < 65536 && |bitmap| == 256
  }

  predicate ParamsInRange(ps: seq<Param>) {
    forall p | p in ps :: |p.name| == 128 && p.length < 0x1_0000_0000 && |p.bitmap| == 128
  }

  predicate EntryInRange(e: Entry) {
    && e.xid < 0x1_0000_0000 && |e.tableName| == 128 && |e.actionName| == 128
    && (forall m | m in e.matches :: MatchInRange(m)) && ParamsInRange(e.params)
  }

  lemma {:induction false} Limit4()
    ensures Limit(4) == 0x1_0000_0000
  {
    assert Limit(4) == 256 * Limit(3) && Limit(3) == 256 * Limit(2) && Limit(2) == 256 * Limit(1);
    assert Limit(1) == 256 * Limit(0);
  }

  /** A table entry that its structures can hold is built in any buffer of at least its length, and lies there
      exactly as the structures say. In a smaller buffer it is not built. */
  lemma {:induction false} EntryOnTheWire(b: seq<Byte>, e: Entry, max: nat)
    requires max <= |b| && max < 65536 && EntryInRange(e)
    ensures EntrySent(b, e, max).Some? <==> EntryLength(e) <= max
    ensures EntryLength(e) <= max ==>
              EntryBytes(EntrySent(b, e, max).value, e, MatchAddrs(e.matches, 140), MatchesEnd(e.matches, 140), EntryLength(e))
  {
    hide EntrySent, EntryAt, EntryBytes, EntrySize, MatchAddrs, MatchesEnd, EntryLength, Limit;
    Limit4();
    EntryLengthIsSize(e);
    EntrySentParts(b, e, max);
    if EntryLength(e) <= max {
      FewParts(e);
      EntryOnTheWireParts(EntrySent(b, e, max).value, e, EntryLength(e));
    }
  }

  lemma {:induction false} DefaultOnTheWireParts(b: seq<Byte>, d: DefaultAction, length: nat)
    requires DefaultAt(b, d, length, false, true) && d.Fits() && length < 65536 && |d.params| < 256
    ensures DefaultBytes(b, d, length)
  {
    hide ParamsAt, ParamsEnd, Ordered, Big2, Big4, ParamBytes, ParamAt, Counted, Limit;
    Big2Ordered(b, 2, length);
    Big4Ordered(b, 4, d.xid);
    CountedSum(0, |d.params|);
    FewParams(d.params, 268);
    forall i | 0 <= i < |d.params| ensures ParamBytes(b, 268 + 260 * i, d.params[i]) {
      ParamIndex(b, 268, d.params, i);
      ParamOnTheWire(b, 268 + 260 * i, d.params[i]);
    }
  }

  /** The same for default actions. */
  lemma {:induction false} DefaultOnTheWire(b: seq<Byte>, d: DefaultAction, max: nat)
    requires max <= |b| && max < 65536
    requires d.xid < 0x1_0000_0000 && |d.tableName| == 128 && |d.actionName| == 128 && ParamsInRange(d.params)
    ensures DefaultActionSent(b, d, max).Some? <==> 268 + 260 * |d.params| <= max && 268 < max
    ensures DefaultActionSent(b, d, max).Some? ==>
              DefaultBytes(DefaultActionSent(b, d, max).value, d, 268 + 260 * |d.params|)
  {
    hide DefaultActionSent, DefaultAt, DefaultBytes, Limit;
    Limit4();
    DefaultSentParts(b, d, max);
    FewParams(d.params, 268);
    if DefaultActionSent(b, d, max).Some? {
      DefaultOnTheWireParts(DefaultActionSent(b, d, max).value, d, DefaultSize(d));
    }
  }

  // ---------------------------------------------------------------- digests

  /** A digest of `n` fields, each of 164 bytes from 140 on. */
  ghost predicate DigestBytes(b: seq<Byte>, name: seq<Byte>, fs: seq<Field>) {
    && 140 + 164 * |fs| <= |b| && b[1] == 110 && Big2(b, 2) == 140 + 164 * |fs|
    && b[8..136] == name && b[136] == |fs| % 256
    && forall i | 0 <= i < |fs| :: FieldBytes(b, 140 + 164 * i, fs[i])
  }

  ghost predicate FieldBytes(b: seq<Byte>, a: nat, f: Field) {
    && a + 164 <= |b| && Big4(b, a + 128) == f.bits
    && |f.value| <= 32 && b[a + 132..a + 132 + |f.value|] == f.value
  }

  lemma {:induction false} FieldOnTheWire(b: seq<Byte>, a: nat, f: Field)
    requires ReadField(b, a) == Some(f)
    ensures FieldBytes(b, a, f)
  {
    hide Number, Big4;
    Big4IsNumber(b, a + 128);
    var b' := Swap(b, a + 128, 4);
    assert b'[a + 128..a + 132] == Reversed(b[a + 128..a + 132]);
    var n := if f.bits == 0 then 0 else (f.bits - 1) / 8 + 1;
    assert b'[a + 132..a + 132 + n] == b[a + 132..a + 132 + n];
  }

  /** The fields a digest can hold: up to 32 bytes, with as many bits as those bytes have or up to seven less. */
  lemma {:induction false} FieldFitsExactly(f: Field)
    ensures f.Fits() <==>
            0 < f.bits && f.bits < 0x1_0000_0000 && |f.value| <= 32 && 8 * |f.value| - 8 < f.bits <= 8 * |f.value|
  {
    Limit4();
  }

  /** A digest that fits lies in its cell exactly as the structures say. */
  lemma {:induction false} DigestOnTheWire(b: seq<Byte>, name: seq<Byte>, fs: seq<Field>, max: nat)
    requires max <= |b| && max < 65536 && |name| == 128 && (forall f | f in fs :: f.Fits())
    ensures DigestSent(b, name, fs, max).Some? <==> 140 < max && 140 + 164 * |fs| <= max
    ensures DigestSent(b, name, fs, max).Some? ==> DigestBytes(DigestSent(b, name, fs, max).value, name, fs)
  {
    hide DigestSent, ReadField, Number, Big2, FieldBytes, Field.Fits;
    DigestRoundTrip(b, name, fs, max);
    if DigestSent(b, name, fs, max).Some? {
      var d := DigestSent(b, name, fs, max).value;
      Big2IsNumber(d, 2);
      forall i | 0 <= i < |fs| ensures FieldBytes(d, 140 + 164 * i, fs[i]) {
        FieldOnTheWire(d, 140 + 164 * i, fs[i]);
      }
    }
  }
}
