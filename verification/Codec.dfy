/** What the built messages contain, part by part. */
module Codec {
  import opened Memory
  import opened Wire
  import opened Messages

  /** A match structure lies at `off`, its number in network or host order. */
  ghost predicate MatchAt(b: seq<Byte>, off: nat, m: Match, net: bool) {
    && m.Fits() && off + MatchSize(m.Kind()) <= |b| && MATCH_BODY + |m.Body()| <= MatchSize(m.Kind())
    && b[off..off + NAME_LEN] == m.name
    && b[off + NAME_LEN] == m.Kind()
    && b[off + 130..off + 132] == Ordered(m.Number(), 2, net)
    && b[off + MATCH_BODY..off + MATCH_BODY + |m.Body()|] == m.Body()
  }

  ghost predicate ParamAt(b: seq<Byte>, off: nat, p: Param, net: bool) {
    && p.Fits() && off + PARAM_SIZE <= |b|
    && b[off..off + NAME_LEN] == p.name
    && b[off + NAME_LEN..off + 132] == Ordered(p.length, 4, net)
    && b[off + 132..off + PARAM_SIZE] == p.bitmap
  }

  lemma {:induction false} MatchStays(b: seq<Byte>, b': seq<Byte>, off: nat, m: Match, net: bool)
    requires MatchAt(b, off, m, net) && Same(b, b', off, off + MatchSize(m.Kind()))
    ensures MatchAt(b', off, m, net)
  {
    hide Match.Body, MatchSize, Match.Kind, Ordered;
    var hi := off + MatchSize(m.Kind());
    BodyFits(m);
    SameSlice(b, b', off, hi, off, off + NAME_LEN);
    SameSlice(b, b', off, hi, off + 130, off + 132);
    SameSlice(b, b', off, hi, off + MATCH_BODY, off + MATCH_BODY + |m.Body()|);
    SameSlice(b, b', off, hi, off + NAME_LEN, off + NAME_LEN + 1);
    assert b'[off + NAME_LEN] == b'[off + NAME_LEN..off + NAME_LEN + 1][0] == b[off + NAME_LEN..off + NAME_LEN + 1][0];
  }

  lemma {:induction false} ParamStays(b: seq<Byte>, b': seq<Byte>, off: nat, p: Param, net: bool)
    requires ParamAt(b, off, p, net) && Same(b, b', off, off + PARAM_SIZE)
    ensures ParamAt(b', off, p, net)
  {
    hide Ordered;
    var hi := off + PARAM_SIZE;
    SameSlice(b, b', off, hi, off, off + NAME_LEN);
    SameSlice(b, b', off, hi, off + NAME_LEN, off + 132);
    SameSlice(b, b', off, hi, off + 132, off + PARAM_SIZE);
  }

  lemma {:induction false} GrownLength(b: seq<Byte>, size: nat)
    requires |b| >= HEADER_SIZE && Length(b) + size < 65536
    ensures Length(Grown(b, size)) == Length(b) + size
    ensures Same(b, Grown(b, size), 0, 2) && Same(b, Grown(b, size), 4, |b|)
  {
    hide Put, ToBytes;
    PutLands(b, 2, ToBytes(Length(b) + size, 2));
    assert Limit(2) == 256 * Limit(1) && Limit(1) == 256 * Limit(0);
    NumberOfBytes(Length(b) + size, 2);
  }

  lemma {:induction false} LengthStays(b: seq<Byte>, b': seq<Byte>)
    requires |b| >= HEADER_SIZE && Same(b, b', 2, 4)
    ensures Length(b') == Length(b)
  {
    SameSlice(b, b', 2, 4, 2, 4);
  }

  lemma {:induction false} MatchAddedParts(b: seq<Byte>, kind: Byte)
    requires |b| >= ENTRY_SIZE && kind <= 4 && ENTRY_SIZE <= Length(b) && Length(b) + MatchSize(kind) <= |b|
    requires Length(b) + MatchSize(kind) < 65536
    ensures var b', off := MatchAdded(b, kind), Length(b);
            && Length(b') == off + MatchSize(kind) && b'[READ_SIZE] == Next(b[READ_SIZE]) && b'[off + NAME_LEN] == kind
            && Same(b, b', 0, 2) && Same(b, b', 4, READ_SIZE) && Same(b, b', READ_SIZE + 1, off)
            && Same(b, b', off + MatchSize(kind), |b|)
  {
    hide Put, Grown, Length;
    var off := Length(b);
    var b1 := Grown(b, MatchSize(kind));
    GrownLength(b, MatchSize(kind));
    PutLands(b1, READ_SIZE, [Next(b[READ_SIZE])]);
    var b2 := Put(b1, READ_SIZE, [Next(b[READ_SIZE])]);
    assert b2[READ_SIZE] == b2[READ_SIZE..READ_SIZE + 1][0];
    PutLands(b2, off + NAME_LEN, [kind]);
    var b3 := Put(b2, off + NAME_LEN, [kind]);
    assert b3[off + NAME_LEN] == b3[off + NAME_LEN..off + NAME_LEN + 1][0];
    PutLands(b3, off + 130, [0, 0]);
    var b4 := Put(b3, off + 130, [0, 0]);
    PutLands(b4, off + MATCH_BODY, [0]);
    LengthStays(b1, MatchAdded(b, kind));
  }

  lemma {:induction false} MatchFilledParts(b: seq<Byte>, off: nat, m: Match)
    requires m.Fits() && off + MatchSize(m.Kind()) <= |b| && b[off + NAME_LEN] == m.Kind()
    ensures var b' := MatchFilled(b, off, m);
            && MatchAt(b', off, m, false) && Same(b, b', 0, off) && Same(b, b', off + MatchSize(m.Kind()), |b|)
  {
    hide Put, Match.Body, MatchSize, Match.Kind, Match.Number, Match.Fits, ToBytes;
    BodyFits(m);
    var b1 := Put(b, off, m.name);
    var b2 := Put(b1, off + 130, ToBytes(m.Number(), 2));
    var b3 := Put(b2, off + MATCH_BODY, m.Body());
    PutLands(b, off, m.name);
    PutLands(b1, off + 130, ToBytes(m.Number(), 2));
    PutLands(b2, off + MATCH_BODY, m.Body());
    SameSlice(b1, b2, 0, off + 130, off, off + NAME_LEN);
    SameSlice(b2, b3, 0, off + 132, off, off + NAME_LEN);
    SameSlice(b2, b3, 0, off + 132, off + 130, off + 132);
  }

  /** Converting the number of a match and nothing else. */
  lemma {:induction false} MatchConverted(b: seq<Byte>, off: nat, m: Match, net: bool)
    requires MatchAt(b, off, m, net)
    ensures var b' := Swap(b, off + 130, 2);
            && MatchAt(b', off, m, !net) && Same(b, b', 0, off) && Same(b, b', off + MatchSize(m.Kind()), |b|)
  {
    hide Put, Match.Body, MatchSize, Match.Kind, Match.Number, Match.Fits, Ordered;
    ReversedOrdered(m.Number(), 2, net);
    PutLands(b, off + 130, Reversed(b[off + 130..off + 132]));
    var b' := Swap(b, off + 130, 2);
    SameSlice(b, b', 0, off + 130, off, off + NAME_LEN);
    SameSlice(b, b', off + 132, |b|, off + MATCH_BODY, off + MATCH_BODY + |m.Body()|);
  }

  /** Appending a match grows the length by its size, counts it, and leaves everything else alone. */
  lemma {:induction false} MatchSentParts(b: seq<Byte>, m: Match)
    requires |b| >= ENTRY_SIZE && m.Fits() && ENTRY_SIZE <= Length(b) && Length(b) + MatchSize(m.Kind()) <= |b|
    requires Length(b) + MatchSize(m.Kind()) < 65536
    ensures var b', off := MatchSent(b, m), Length(b);
            && Length(b') == off + MatchSize(m.Kind()) && b'[READ_SIZE] == Next(b[READ_SIZE]) && MatchAt(b', off, m, true)
            && Same(b, b', 0, 2) && Same(b, b', 4, READ_SIZE) && Same(b, b', READ_SIZE + 1, off)
  {
    hide MatchAdded, MatchFilled, Swap, MatchAt, MatchSize, Match.Kind, Match.Fits, Length, Next;
    var off := Length(b);
    BodyFits(m);
    MatchAddedParts(b, m.Kind());
    var b1 := MatchAdded(b, m.Kind());
    MatchFilledParts(b1, off, m);
    var b2 := MatchFilled(b1, off, m);
    MatchConverted(b2, off, m, false);
    LengthStays(b1, MatchSent(b, m));
  }

  lemma {:induction false} ParamAddedParts(b: seq<Byte>, act: nat)
    requires |b| >= HEADER_SIZE && HEADER_SIZE <= act && act + ACTION_SIZE <= Length(b) && Length(b) + PARAM_SIZE <= |b|
    requires Length(b) + PARAM_SIZE < 65536
    ensures var b', off := ParamAdded(b, act), Length(b);
            && Length(b') == off + PARAM_SIZE && b'[act + 129] == Next(b[act + 129])
            && Same(b, b', 0, 2) && Same(b, b', 4, act + 129) && Same(b, b', act + ACTION_SIZE, off)
  {
    hide Put, Grown, Length, ToBytes;
    var off := Length(b);
    var b1 := Grown(b, PARAM_SIZE);
    GrownLength(b, PARAM_SIZE);
    PutLands(b1, act + 129, [Next(b[act + 129])]);
    var b2 := Put(b1, act + 129, [Next(b[act + 129])]);
    assert b2[act + 129] == b2[act + 129..act + 129 + 1][0];
    PutLands(b2, off, [0]);
    PutLands(Put(b2, off, [0]), off + NAME_LEN, ToBytes(0, 4));
    LengthStays(b1, ParamAdded(b, act));
  }

  lemma {:induction false} ParamFilledParts(b: seq<Byte>, off: nat, p: Param)
    requires p.Fits() && off + PARAM_SIZE <= |b|
    ensures var b' := ParamFilled(b, off, p);
            ParamAt(b', off, p, false) && Same(b, b', 0, off) && Same(b, b', off + PARAM_SIZE, |b|)
  {
    hide Put, ToBytes;
    var b1 := Put(b, off, p.name);
    var b2 := Put(b1, off + NAME_LEN, ToBytes(p.length, 4));
    var b3 := Put(b2, off + 132, p.bitmap);
    PutLands(b, off, p.name);
    PutLands(b1, off + NAME_LEN, ToBytes(p.length, 4));
    PutLands(b2, off + 132, p.bitmap);
    SameSlice(b1, b2, 0, off + NAME_LEN, off, off + NAME_LEN);
    SameSlice(b2, b3, 0, off + 132, off, off + NAME_LEN);
    SameSlice(b2, b3, 0, off + 132, off + NAME_LEN, off + 132);
  }

  lemma {:induction false} ParamConverted(b: seq<Byte>, off: nat, p: Param, net: bool)
    requires ParamAt(b, off, p, net)
    ensures var b' := Swap(b, off + NAME_LEN, 4);
            ParamAt(b', off, p, !net) && Same(b, b', 0, off) && Same(b, b', off + PARAM_SIZE, |b|)
  {
    hide Put, Ordered, Param.Fits;
    ReversedOrdered(p.length, 4, net);
    PutLands(b, off + NAME_LEN, Reversed(b[off + NAME_LEN..off + 132]));
    var b' := Swap(b, off + NAME_LEN, 4);
    SameSlice(b, b', 0, off + NAME_LEN, off, off + NAME_LEN);
    SameSlice(b, b', off + 132, |b|, off + 132, off + PARAM_SIZE);
  }

  lemma {:induction false} ParamSentParts(b: seq<Byte>, act: nat, p: Param)
    requires |b| >= HEADER_SIZE && HEADER_SIZE <= act && act + ACTION_SIZE <= Length(b) && Length(b) + PARAM_SIZE <= |b|
    requires Length(b) + PARAM_SIZE < 65536 && p.Fits()
    ensures var b', off := ParamSent(b, act, p), Length(b);
            && Length(b') == off + PARAM_SIZE && b'[act + 129] == Next(b[act + 129]) && ParamAt(b', off, p, true)
            && Same(b, b', 0, 2) && Same(b, b', 4, act + 129) && Same(b, b', act + ACTION_SIZE, off)
  {
    hide ParamAdded, ParamFilled, Swap, ParamAt, Param.Fits, Length, Next;
    var off := Length(b);
    ParamAddedParts(b, act);
    var b1 := ParamAdded(b, act);
    ParamFilledParts(b1, off, p);
    ParamConverted(ParamFilled(b1, off, p), off, p, false);
    LengthStays(b1, ParamSent(b, act, p));
  }

  // ---------------------------------------------------------------- lists of parts

  /** Where the matches end that start at `off`; and the addresses of the matches. */
  function MatchesEnd(ms: seq<Match>, off: nat): (e: nat)
    ensures off <= e
  {
    if ms == [] then off else MatchesEnd(ms[1..], off + MatchSize(ms[0].Kind()))
  }

  function MatchAddrs(ms: seq<Match>, off: nat): (r: seq<nat>)
    ensures |r| == |ms|
  {
    if ms == [] then [] else [off] + MatchAddrs(ms[1..], off + MatchSize(ms[0].Kind()))
  }

  ghost predicate MatchesAt(b: seq<Byte>, off: nat, ms: seq<Match>, net: bool)
    decreases |ms|
  {
    ms != [] ==> MatchAt(b, off, ms[0], net) && MatchesAt(b, off + MatchSize(ms[0].Kind()), ms[1..], net)
  }

  function ParamsEnd(ps: seq<Param>, off: nat): (e: nat)
    ensures off <= e
  {
    if ps == [] then off else ParamsEnd(ps[1..], off + PARAM_SIZE)
  }

  function ParamAddrs(ps: seq<Param>, off: nat): (r: seq<nat>)
    ensures |r| == |ps|
  {
    if ps == [] then [] else [off] + ParamAddrs(ps[1..], off + PARAM_SIZE)
  }

  ghost predicate ParamsAt(b: seq<Byte>, off: nat, ps: seq<Param>, net: bool)
    decreases |ps|
  {
    ps != [] ==> ParamAt(b, off, ps[0], net) && ParamsAt(b, off + PARAM_SIZE, ps[1..], net)
  }

  lemma {:induction false} MatchesStay(b: seq<Byte>, b': seq<Byte>, off: nat, ms: seq<Match>, net: bool)
    requires MatchesAt(b, off, ms, net) && Same(b, b', off, MatchesEnd(ms, off))
    ensures MatchesAt(b', off, ms, net)
    decreases |ms|
  {
    hide MatchAt;
    if ms != [] {
      MatchStays(b, b', off, ms[0], net);
      MatchesStay(b, b', off + MatchSize(ms[0].Kind()), ms[1..], net);
    }
  }

  lemma {:induction false} ParamsStay(b: seq<Byte>, b': seq<Byte>, off: nat, ps: seq<Param>, net: bool)
    requires ParamsAt(b, off, ps, net) && Same(b, b', off, ParamsEnd(ps, off))
    ensures ParamsAt(b', off, ps, net)
    decreases |ps|
  {
    hide ParamAt;
    if ps != [] {
      ParamStays(b, b', off, ps[0], net);
      ParamsStay(b, b', off + PARAM_SIZE, ps[1..], net);
    }
  }

  /** A one-byte count after `k` increases. */
  function Counted(n: Byte, k: nat): Byte
    decreases k
  {
    if k == 0 then n else Counted(Next(n), k - 1)
  }

  lemma {:induction false} CountedSum(n: Byte, k: nat)
    requires n + k < 256
    ensures Counted(n, k) == n + k
    decreases k
  {
    if k > 0 {
      CountedSum(Next(n), k - 1);
    }
  }

  /** Appending matches works if and only if all of them fit; then they lie one after the other from where
      the message ended, and nothing else changed but the length and the count. */
  lemma {:induction false} MatchesSentParts(b: seq<Byte>, ms: seq<Match>, max: nat)
    requires ENTRY_SIZE <= |b| && ENTRY_SIZE <= Length(b) <= max <= |b| && max < 65536 && forall m | m in ms :: m.Fits()
    ensures MatchesSent(b, ms, max).Some? <==> MatchesEnd(ms, Length(b)) <= max
    ensures MatchesSent(b, ms, max).Some? ==>
              var b', off := MatchesSent(b, ms, max).value, Length(b);
              && Length(b') == MatchesEnd(ms, off) && b'[READ_SIZE] == Counted(b[READ_SIZE], |ms|) && MatchesAt(b', off, ms, true)
              && Same(b, b', 0, 2) && Same(b, b', 4, READ_SIZE) && Same(b, b', READ_SIZE + 1, off)
    decreases |ms|
  {
    hide Length, MatchSent, MatchAt, MatchSize, Match.Kind, Match.Fits, Next;
    if ms != [] && Length(b) + MatchSize(ms[0].Kind()) <= max {
      var m, off := ms[0], Length(b);
      assert m in ms;
      MatchSentParts(b, m);
      var b1 := MatchSent(b, m);
      MatchesSentParts(b1, ms[1..], max);
      if MatchesSent(b, ms, max).Some? {
        MatchStays(b1, MatchesSent(b, ms, max).value, off, m, true);
      }
    }
  }

  lemma {:induction false} ParamsSentParts(b: seq<Byte>, act: nat, ps: seq<Param>, max: nat)
    requires HEADER_SIZE <= act && act + ACTION_SIZE <= |b| && act + ACTION_SIZE <= Length(b) <= max <= |b|
    requires max < 65536 && forall p | p in ps :: p.Fits()
    ensures ParamsSent(b, act, ps, max).Some? <==> ParamsEnd(ps, Length(b)) <= max
    ensures ParamsSent(b, act, ps, max).Some? ==>
              var b', off := ParamsSent(b, act, ps, max).value, Length(b);
              && Length(b') == ParamsEnd(ps, off) && b'[act + 129] == Counted(b[act + 129], |ps|) && ParamsAt(b', off, ps, true)
              && Same(b, b', 0, 2) && Same(b, b', 4, act + 129) && Same(b, b', act + ACTION_SIZE, off)
    decreases |ps|
  {
    hide Length, ParamSent, ParamAt, Param.Fits, Next;
    if ps != [] && Length(b) + PARAM_SIZE <= max {
      var p, off := ps[0], Length(b);
      assert p in ps;
      ParamSentParts(b, act, p);
      var b1 := ParamSent(b, act, p);
      ParamsSentParts(b1, act, ps[1..], max);
      if ParamsSent(b, act, ps, max).Some? {
        ParamStays(b1, ParamsSent(b, act, ps, max).value, off, p, true);
      }
    }
  }
}
