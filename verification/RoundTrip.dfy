/** Sending a table entry or a default action and handling it at the other end gives back what was sent. */
module RoundTrip {
  import opened Options
  import opened Memory
  import opened Wire
  import opened Messages
  import opened Codec
  import opened Handlers

  // ---------------------------------------------------------------- the sender's parts

  lemma {:induction false} HeaderVersion(b: seq<Byte>)
    requires |b| >= HEADER_SIZE
    ensures HeaderCreated(b)[0] == P4_VERSION
  {
    hide ToBytes;
  }

  lemma {:induction false} Started(b: seq<Byte>, xid: nat, tableName: seq<Byte>)
    requires |b| >= ENTRY_SIZE && |tableName| == NAME_LEN
    ensures var b' := Addressed(EntryCreated(HeaderCreated(b)), xid, tableName);
            && Length(b') == ENTRY_SIZE && b'[0] == P4_VERSION && b'[1] == ADD_TABLE_ENTRY && b'[READ_SIZE] == 0
            && b'[4..8] == ToBytes(xid, 4) && b'[HEADER_SIZE..READ_SIZE] == tableName
  {
    hide Put, ToBytes, HeaderCreated, Number;
    var b0 := HeaderCreated(b);
    var b1 := Put(b0, 2, ToBytes(ENTRY_SIZE, 2));
    var b2 := Put(b1, 1, [ADD_TABLE_ENTRY]);
    var b3 := Put(b2, READ_SIZE, [0]);
    var b4 := Put(b3, HEADER_SIZE, [0]);
    var b5 := Put(b4, 4, ToBytes(xid, 4));
    var b6 := Put(b5, HEADER_SIZE, tableName);
    PutLands(b0, 2, ToBytes(ENTRY_SIZE, 2));
    PutLands(b1, 1, [ADD_TABLE_ENTRY]);
    PutLands(b2, READ_SIZE, [0]);
    PutLands(b3, HEADER_SIZE, [0]);
    PutLands(b4, 4, ToBytes(xid, 4));
    PutLands(b5, HEADER_SIZE, tableName);
    HeaderVersion(b);
    assert b2[1] == b2[1..2][0] && b3[READ_SIZE] == b3[READ_SIZE..READ_SIZE + 1][0];
    assert Same(b1, b6, 2, 4);
    SameSlice(b1, b6, 2, 4, 2, 4);
    SameSlice(b5, b6, 4, 8, 4, 8);
    SmallNumber(ENTRY_SIZE);
  }

  lemma {:induction false} SmallNumber(v: nat)
    requires v < 65536
    ensures Number(ToBytes(v, 2)) == v && v < Limit(2)
  {
    assert Limit(2) == 256 * Limit(1) && Limit(1) == 256 * Limit(0);
    NumberOfBytes(v, 2);
  }

  lemma {:induction false} ActionSentParts(b: seq<Byte>, name: seq<Byte>)
    requires |b| >= ENTRY_SIZE && ENTRY_SIZE <= Length(b) && Length(b) + ACTION_SIZE <= |b| && |name| == NAME_LEN
    requires Length(b) + ACTION_SIZE < 65536
    ensures var b', off := ActionSent(b, name), Length(b);
            && Length(b') == off + ACTION_SIZE && b'[off] == 0 && b'[off + 1..off + 129] == name && b'[off + 129] == 0
            && Same(b, b', 0, 2) && Same(b, b', 4, off)
  {
    hide Put, ToBytes, Grown, Length;
    var off := Length(b);
    var b1 := Grown(b, ACTION_SIZE);
    GrownLength(b, ACTION_SIZE);
    var b2 := Put(b1, off, [0]);
    var b3 := Put(b2, off + 1, [0]);
    var b4 := Put(b3, off + 129, [0]);
    PutLands(b1, off, [0]);
    PutLands(b2, off + 1, [0]);
    PutLands(b3, off + 129, [0]);
    PutLands(b4, off + 1, name);
    assert b2[off] == b2[off..off + 1][0] && b4[off + 129] == b4[off + 129..off + 130][0];
    LengthStays(b1, ActionSent(b, name));
  }

  lemma {:induction false} HeaderConvertedParts(b: seq<Byte>)
    requires |b| >= HEADER_SIZE
    ensures var b' := HeaderConverted(b);
            && b'[2..4] == Reversed(b[2..4]) && b'[4..8] == Reversed(b[4..8])
            && Same(b, b', 0, 2) && Same(b, b', 8, |b|)
  {
    hide Put;
    var b1 := Swap(b, 2, 2);
    PutLands(b, 2, Reversed(b[2..4]));
    PutLands(b1, 4, Reversed(b1[4..8]));
    SameSlice(b, b1, 4, |b|, 4, 8);
    SameSlice(b1, HeaderConverted(b), 0, 4, 2, 4);
  }

  /** A message with a table entry: `hostHeader` and `net` tell which order its numbers are in. */
  ghost predicate EntryAt(b: seq<Byte>, e: Entry, length: nat, hostHeader: bool, net: bool) {
    var act := MatchesEnd(e.matches, ENTRY_SIZE);
    && ParamsEnd(e.params, act + ACTION_SIZE) == length <= |b|
    && b[0] == P4_VERSION && b[1] == ADD_TABLE_ENTRY
    && b[2..4] == Ordered(length, 2, !hostHeader) && b[4..8] == Ordered(e.xid, 4, !hostHeader)
    && b[HEADER_SIZE..READ_SIZE] == e.tableName && b[READ_SIZE] == Counted(0, |e.matches|)
    && MatchesAt(b, ENTRY_SIZE, e.matches, net)
    && b[act] == 0 && b[act + 1..act + 129] == e.actionName && b[act + 129] == Counted(0, |e.params|)
    && ParamsAt(b, act + ACTION_SIZE, e.params, net)
  }

  function EntrySize(e: Entry): nat {
    ParamsEnd(e.params, MatchesEnd(e.matches, ENTRY_SIZE) + ACTION_SIZE)
  }

  lemma {:induction false} NumberBytes(b: seq<Byte>, v: nat)
    requires |b| >= HEADER_SIZE && Length(b) == v < 65536
    ensures b[2..4] == ToBytes(v, 2)
  {
    var s := b[2..4];
    assert s[1..][1..] == [] && Number(s) == s[0] + 256 * (s[1] + 256 * Number([]));
    assert ToBytes(v, 2) == [v % 256] + ToBytes(v / 256, 1) && ToBytes(v / 256, 1) == [v / 256 % 256] + ToBytes(v / 256 / 256, 0);
  }

  /** Everything before the header conversion, put together. */
  lemma {:induction false} PartsBuilt(b: seq<Byte>, b1: seq<Byte>, b2: seq<Byte>, e: Entry, length: nat)
    requires e.Fits() && |b| == |b1| >= ENTRY_SIZE && length < 65536
    requires Length(b) == ENTRY_SIZE && b[0] == P4_VERSION && b[1] == ADD_TABLE_ENTRY && b[READ_SIZE] == 0
    requires b[4..8] == ToBytes(e.xid, 4) && b[HEADER_SIZE..READ_SIZE] == e.tableName
    requires var act := MatchesEnd(e.matches, ENTRY_SIZE);
             && Length(b1) == act && act + ACTION_SIZE <= |b1| && b1[READ_SIZE] == Counted(0, |e.matches|)
             && MatchesAt(b1, ENTRY_SIZE, e.matches, true) && Same(b, b1, 0, 2) && Same(b, b1, 4, READ_SIZE)
             && var b1a := ActionSent(b1, e.actionName);
             && Length(b1a) == act + ACTION_SIZE && b1a[act] == 0 && b1a[act + 1..act + 129] == e.actionName && b1a[act + 129] == 0
             && Same(b1, b1a, 0, 2) && Same(b1, b1a, 4, act)
             && |b2| == |b1a| && Length(b2) == ParamsEnd(e.params, act + ACTION_SIZE) == length <= |b2| && b2[act + 129] == Counted(0, |e.params|)
             && ParamsAt(b2, act + ACTION_SIZE, e.params, true)
             && Same(b1a, b2, 0, 2) && Same(b1a, b2, 4, act + 129) && Same(b1a, b2, act + ACTION_SIZE, act + ACTION_SIZE)
    ensures EntryAt(b2, e, length, true, true)
  {
    hide ActionSent, MatchesAt, ParamsAt, Length, Counted, Entry.Fits;
    var act := MatchesEnd(e.matches, ENTRY_SIZE);
    var b1a := ActionSent(b1, e.actionName);
    NumberBytes(b2, length);
    assert Same(b1, b2, 4, act);
    MatchesStay(b1, b2, ENTRY_SIZE, e.matches, true);
    assert Same(b, b2, 4, READ_SIZE);
    SameSlice(b, b2, 4, READ_SIZE, 4, 8);
    SameSlice(b, b2, 4, READ_SIZE, HEADER_SIZE, READ_SIZE);
    SameSlice(b1a, b2, 4, act + 129, act + 1, act + 129);
  }

  lemma {:induction false} EntryHeaderConverted(b: seq<Byte>, e: Entry, length: nat, host: bool, net: bool)
    requires EntryAt(b, e, length, host, net)
    ensures EntryAt(HeaderConverted(b), e, length, !host, net)
  {
    hide HeaderConverted, MatchesAt, ParamsAt, Counted, Ordered;
    var b' := HeaderConverted(b);
    var act := MatchesEnd(e.matches, ENTRY_SIZE);
    HeaderConvertedParts(b);
    ReversedOrdered(length, 2, !host);
    ReversedOrdered(e.xid, 4, !host);
    MatchesStay(b, b', ENTRY_SIZE, e.matches, net);
    ParamsStay(b, b', act + ACTION_SIZE, e.params, net);
    SameSlice(b, b', 8, |b|, HEADER_SIZE, READ_SIZE);
    SameSlice(b, b', 8, |b|, act + 1, act + 129);
  }

  /** An entry can be built if and only if it fits, and then the buffer holds it in network order. */
  lemma {:induction false} EntrySentParts(b: seq<Byte>, e: Entry, max: nat)
    requires max <= |b| && max < 65536 && e.Fits()
    ensures EntrySent(b, e, max).Some? <==> EntrySize(e) <= max
    ensures EntrySent(b, e, max).Some? ==> EntryAt(EntrySent(b, e, max).value, e, EntrySize(e), false, true)
  {
    hide Addressed, EntryCreated, HeaderCreated, HeaderConverted, ActionSent, MatchesAt, ParamsAt, MatchesSent,
         ParamsSent, EntryAt, Length;
    if ENTRY_SIZE < max {
      var b0 := Addressed(EntryCreated(HeaderCreated(b)), e.xid, e.tableName);
      Started(b, e.xid, e.tableName);
      MatchesSentParts(b0, e.matches, max);
      var r1 := MatchesSent(b0, e.matches, max);
      if r1.Some? && Length(r1.value) + ACTION_SIZE <= max {
        var b1 := r1.value;
        ActionSentParts(b1, e.actionName);
        var b1a := ActionSent(b1, e.actionName);
        ParamsSentParts(b1a, Length(b1), e.params, max);
        var r2 := ParamsSent(b1a, Length(b1), e.params, max);
        if r2.Some? {
          PartsBuilt(b0, b1, r2.value, e, EntrySize(e));
          EntryHeaderConverted(r2.value, e, EntrySize(e), true, true);
        }
      }
    }
  }

  // ---------------------------------------------------------------- the receiver's parts

  /** The walk over the matches goes through exactly the addresses where the sender put them, and converts
      each of them once. */
  lemma {:induction false} MatchesReceivedParts(b: seq<Byte>, off: nat, ms: seq<Match>)
    requires MatchesAt(b, off, ms, true)
    ensures MatchesReceived(b, off, |ms|).Some?
    ensures var w := MatchesReceived(b, off, |ms|).value;
            && w.at == MatchAddrs(ms, off) && w.end == MatchesEnd(ms, off)
            && MatchesAt(w.buf, off, ms, false) && Same(b, w.buf, 0, off) && Same(b, w.buf, w.end, |b|)
    decreases |ms|
  {
    hide Swap, MatchAt, MatchSize, Match.Kind;
    if ms != [] {
      var m := ms[0];
      var size := MatchSize(m.Kind());
      MatchFacts(b, off, m, true);
      MatchConverted(b, off, m, true);
      var b1 := Swap(b, off + 130, 2);
      MatchesStayBehind(b, b1, off + size, ms[1..]);
      MatchesReceivedParts(b1, off + size, ms[1..]);
      var w := MatchesReceived(b1, off + size, |ms| - 1).value;
      MatchStays(b1, w.buf, off, m, false);
      assert MatchesReceived(b, off, |ms|) == After([off], Some(w));
    }
  }

  lemma {:induction false} MatchFacts(b: seq<Byte>, off: nat, m: Match, net: bool)
    requires MatchAt(b, off, m, net)
    ensures 0 < MatchSize(m.Kind()) && off + MatchSize(m.Kind()) <= |b| && off + 132 <= |b|
            && b[off + NAME_LEN] == m.Kind()
  {
  }

  lemma {:induction false} MatchesStayBehind(b: seq<Byte>, b': seq<Byte>, off: nat, ms: seq<Match>)
    requires MatchesAt(b, off, ms, true) && Same(b, b', off, |b|)
    ensures MatchesAt(b', off, ms, true)
  {
    hide MatchesAt;
    MatchesStay(b, b', off, ms, true);
  }

  lemma {:induction false} ParamsReceivedParts(b: seq<Byte>, off: nat, ps: seq<Param>)
    requires ParamsAt(b, off, ps, true)
    ensures ParamsReceived(b, off, |ps|).Some?
    ensures var w := ParamsReceived(b, off, |ps|).value;
            && w.at == ParamAddrs(ps, off) && ParamsAt(w.buf, off, ps, false) && Same(b, w.buf, 0, off)
    decreases |ps|
  {
    hide Swap, ParamAt;
    if ps != [] {
      var p := ps[0];
      ParamFacts(b, off, p);
      ParamConverted(b, off, p, true);
      var b1 := Swap(b, off + NAME_LEN, 4);
      ParamsStay(b, b1, off + PARAM_SIZE, ps[1..], true);
      ParamsReceivedParts(b1, off + PARAM_SIZE, ps[1..]);
      var w := ParamsReceived(b1, off + PARAM_SIZE, |ps| - 1).value;
      ParamStays(b1, w.buf, off, p, false);
      assert ParamsReceived(b, off, |ps|) == After([off], Some(w));
    }
  }

  lemma {:induction false} ParamFacts(b: seq<Byte>, off: nat, p: Param)
    requires ParamAt(b, off, p, true)
    ensures off + PARAM_SIZE <= |b|
  {
  }

  lemma {:induction false} ReadMatchAt(b: seq<Byte>, off: nat, m: Match)
    requires MatchAt(b, off, m, false)
    ensures ReadMatch(b, off) == Some(m)
  {
    hide MatchOf, BodySize, MatchSize, Match.Kind, Match.Body, Match.Number, ToBytes;
    BodyFits(m);
    MatchOfParts(m);
    NumberOfBytes(m.Number(), 2);
  }

  lemma {:induction false} ReadParamAt(b: seq<Byte>, off: nat, p: Param)
    requires ParamAt(b, off, p, false)
    ensures ReadParam(b, off) == Some(p)
  {
    hide ToBytes;
    NumberOfBytes(p.length, 4);
  }

  lemma {:induction false} ReadMatchesAt(b: seq<Byte>, off: nat, ms: seq<Match>, i: nat)
    requires MatchesAt(b, off, ms, false) && i < |ms|
    ensures ReadMatch(b, MatchAddrs(ms, off)[i]) == Some(ms[i])
    decreases |ms|
  {
    hide MatchAt, ReadMatch;
    if i == 0 {
      ReadMatchAt(b, off, ms[0]);
    } else {
      ReadMatchesAt(b, off + MatchSize(ms[0].Kind()), ms[1..], i - 1);
    }
  }

  lemma {:induction false} ReadParamsAt(b: seq<Byte>, off: nat, ps: seq<Param>, i: nat)
    requires ParamsAt(b, off, ps, false) && i < |ps|
    ensures ReadParam(b, ParamAddrs(ps, off)[i]) == Some(ps[i])
    decreases |ps|
  {
    hide ParamAt, ReadParam;
    if i == 0 {
      ReadParamAt(b, off, ps[0]);
    } else {
      ReadParamsAt(b, off + PARAM_SIZE, ps[1..], i - 1);
    }
  }

  lemma {:induction false} FewMatches(ms: seq<Match>, off: nat)
    requires forall m | m in ms :: m.Fits()
    ensures off + 388 * |ms| <= MatchesEnd(ms, off)
    decreases |ms|
  {
    if ms != [] {
      assert ms[0] in ms;
      FewMatches(ms[1..], off + MatchSize(ms[0].Kind()));
    }
  }

  lemma {:induction false} FewParams(ps: seq<Param>, off: nat)
    ensures off + PARAM_SIZE * |ps| == ParamsEnd(ps, off)
    decreases |ps|
  {
    if ps != [] {
      FewParams(ps[1..], off + PARAM_SIZE);
    }
  }

  /** What the callback can read through the pointers it is given is the entry that was sent. */
  ghost predicate Recovers(msg: CtrlMsg, b: seq<Byte>, e: Entry) {
    && msg.EntryMsg? && msg.xid == e.xid && msg.actionType == 0
    && ReadName(b, msg.tableName) == Some(e.tableName) && ReadName(b, msg.actionName) == Some(e.actionName)
    && |msg.matchAt| == |e.matches| && (forall i | 0 <= i < |e.matches| :: ReadMatch(b, msg.matchAt[i]) == Some(e.matches[i]))
    && |msg.paramAt| == |e.params| && (forall i | 0 <= i < |e.params| :: ReadParam(b, msg.paramAt[i]) == Some(e.params[i]))
  }

  /** How the receiver answers to a well-formed entry: it takes at most ten matches and ten parameters. */
  function Answer(e: Entry): int {
    if |e.matches| > MAX_MATCHES then -1 else if |e.params| > MAX_PARAMS then -2 else 0
  }

  /** The first walk finds the action where the sender put it. */
  lemma {:induction false} MatchesWalked(b: seq<Byte>, e: Entry, length: nat)
    requires EntryAt(b, e, length, true, true) && |e.params| < 256
    ensures MatchesReceived(b, ENTRY_SIZE, |e.matches|).Some?
    ensures var w, act := MatchesReceived(b, ENTRY_SIZE, |e.matches|).value, MatchesEnd(e.matches, ENTRY_SIZE);
            && w.at == MatchAddrs(e.matches, ENTRY_SIZE) && w.end == act && act + ACTION_SIZE <= |b|
            && MatchesAt(w.buf, ENTRY_SIZE, e.matches, false) && ParamsAt(w.buf, act + ACTION_SIZE, e.params, true)
            && w.buf[HEADER_SIZE..READ_SIZE] == e.tableName
            && w.buf[act] == 0 && w.buf[act + 1..act + 129] == e.actionName && w.buf[act + 129] == |e.params|
  {
    hide MatchesReceived, MatchesAt, ParamsAt, Counted, MatchAddrs;
    var act := MatchesEnd(e.matches, ENTRY_SIZE);
    CountedSum(0, |e.params|);
    MatchesReceivedParts(b, ENTRY_SIZE, e.matches);
    var w := MatchesReceived(b, ENTRY_SIZE, |e.matches|).value;
    ParamsStay(b, w.buf, act + ACTION_SIZE, e.params, true);
    SameSlice(b, w.buf, act, |b|, act + 1, act + 129);
    SameSlice(b, w.buf, 0, ENTRY_SIZE, HEADER_SIZE, READ_SIZE);
  }

  lemma {:induction false} ParamsWalked(b: seq<Byte>, e: Entry, act: nat, xid: nat)
    requires ENTRY_SIZE <= act == MatchesEnd(e.matches, ENTRY_SIZE) && act + ACTION_SIZE <= |b| && xid == e.xid
             && |e.tableName| == |e.actionName| == NAME_LEN
    requires MatchesAt(b, ENTRY_SIZE, e.matches, false) && ParamsAt(b, act + ACTION_SIZE, e.params, true)
    requires b[HEADER_SIZE..READ_SIZE] == e.tableName && b[act + 1..act + 129] == e.actionName
    ensures ParamsReceived(b, act + ACTION_SIZE, |e.params|).Some?
    ensures var v := ParamsReceived(b, act + ACTION_SIZE, |e.params|).value;
            Recovers(EntryMsg(xid, HEADER_SIZE, 0, act + 1, v.at, MatchAddrs(e.matches, ENTRY_SIZE)), v.buf, e)
  {
    hide ParamsReceived, MatchesAt, ParamsAt, ReadMatch, ReadParam, MatchAddrs, ParamAddrs;
    ParamsReceivedParts(b, act + ACTION_SIZE, e.params);
    var v := ParamsReceived(b, act + ACTION_SIZE, |e.params|).value;
    MatchesStay(b, v.buf, ENTRY_SIZE, e.matches, false);
    SameSlice(b, v.buf, 0, act + ACTION_SIZE, act + 1, act + 129);
    SameSlice(b, v.buf, 0, act + ACTION_SIZE, HEADER_SIZE, READ_SIZE);
    var at := MatchAddrs(e.matches, ENTRY_SIZE);
    forall i | 0 <= i < |e.matches| ensures ReadMatch(v.buf, at[i]) == Some(e.matches[i]) {
      ReadMatchesAt(v.buf, ENTRY_SIZE, e.matches, i);
    }
    forall i | 0 <= i < |e.params| ensures ReadParam(v.buf, v.at[i]) == Some(e.params[i]) {
      ReadParamsAt(v.buf, act + ACTION_SIZE, e.params, i);
    }
  }

  lemma {:induction false} EntryFacts(b: seq<Byte>, e: Entry, length: nat, net: bool)
    requires EntryAt(b, e, length, true, net) && e.Fits() && |e.matches| < 256 && ENTRY_SIZE <= |b| && length < 65536
    ensures b[READ_SIZE] == |e.matches| && Xid(b) == e.xid && Length(b) == length && b[1] == ADD_TABLE_ENTRY
    ensures |e.tableName| == |e.actionName| == NAME_LEN
  {
    hide MatchesAt, ParamsAt, ToBytes, MatchesEnd, ParamsEnd;
    CountedSum(0, |e.matches|);
    XidOf(b, e.xid);
    SmallNumber(length);
  }

  lemma {:induction false} EntryReceivedParts(b: seq<Byte>, e: Entry, length: nat)
    requires EntryAt(b, e, length, true, true) && e.Fits() && |e.matches| < 256 && |e.params| < 256
             && ENTRY_SIZE <= |b| && length < 65536
    ensures var (r, b') := EntryReceived(b);
            if Answer(e) < 0 then r == Refused(Answer(e))
            else r.Handled? && Recovers(r.msg, b', e) && r.msg.matchAt == MatchAddrs(e.matches, ENTRY_SIZE)
  {
    hide MatchesReceived, ParamsReceived, MatchesAt, ParamsAt, Counted, Entry.Fits, Recovers, MatchAddrs, MatchesEnd,
         ParamsEnd, EntryAt, Xid, Length;
    EntryFacts(b, e, length, true);
    MatchesWalked(b, e, length);
    ParamsWalked(MatchesReceived(b, ENTRY_SIZE, |e.matches|).value.buf, e, MatchesEnd(e.matches, ENTRY_SIZE), e.xid);
  }

  /** The round trip for table entries: an entry can be built exactly if it fits the buffer, and then the
      receiver, given any buffer length that covers it, recovers the table name, the matches with their kinds
      and lengths, the action name and the parameters in order; unless it has more than ten matches (answer
      -1) or more than ten parameters (answer -2). The addresses the receiver walks are the ones the sender's
      running length went through. */
  lemma {:induction false} EntryRoundTrip(b: seq<Byte>, e: Entry, max: nat, length: nat)
    requires max <= length <= |b| && max < 65536 && e.Fits()
    ensures EntrySent(b, e, max).Some? <==> EntrySize(e) <= max
    ensures EntrySize(e) <= max ==>
              var (r, b') := Received(EntrySent(b, e, max).value, length);
              if Answer(e) < 0 then r == Refused(Answer(e))
              else r.Handled? && Recovers(r.msg, b', e) && r.msg.matchAt == MatchAddrs(e.matches, ENTRY_SIZE)
  {
    hide EntrySent, HeaderConverted, EntryAt, EntryReceived, DefaultActionReceived, Recovers, MatchAddrs, Length,
         Entry.Fits, Xid, Answer;
    EntrySentParts(b, e, max);
    if EntrySize(e) <= max {
      FewParts(e);
      var sent := EntrySent(b, e, max).value;
      EntryHeaderConverted(sent, e, EntrySize(e), false, true);
      EntryFacts(HeaderConverted(sent), e, EntrySize(e), true);
      EntryReceivedParts(HeaderConverted(sent), e, EntrySize(e));
    }
  }

  lemma {:induction false} FewParts(e: Entry)
    requires e.Fits() && EntrySize(e) < 65536
    ensures ENTRY_SIZE < EntrySize(e) && |e.matches| < 256 && |e.params| < 256
  {
    FewMatches(e.matches, ENTRY_SIZE);
    FewParams(e.params, MatchesEnd(e.matches, ENTRY_SIZE) + ACTION_SIZE);
  }

  lemma {:induction false} XidOf(b: seq<Byte>, xid: nat)
    requires |b| >= HEADER_SIZE && b[4..8] == ToBytes(xid, 4)
    ensures xid < Limit(4) ==> Xid(b) == xid
  {
    if xid < Limit(4) {
      NumberOfBytes(xid, 4);
    }
  }

  // ---------------------------------------------------------------- default actions

  ghost predicate DefaultAt(b: seq<Byte>, d: DefaultAction, length: nat, hostHeader: bool, net: bool) {
    && ParamsEnd(d.params, DEFAULT_ACTION_SIZE) == length <= |b|
    && b[0] == P4_VERSION && b[1] == SET_DEFAULT_ACTION
    && b[2..4] == Ordered(length, 2, !hostHeader) && b[4..8] == Ordered(d.xid, 4, !hostHeader)
    && b[HEADER_SIZE..DEFAULT_ACTION] == d.tableName
    && b[DEFAULT_ACTION] == 0 && b[DEFAULT_ACTION + 1..DEFAULT_ACTION + 129] == d.actionName
    && b[DEFAULT_ACTION + 129] == Counted(0, |d.params|)
    && ParamsAt(b, DEFAULT_ACTION_SIZE, d.params, net)
  }

  lemma {:induction false} DefaultStarted(b: seq<Byte>, d: DefaultAction)
    requires |b| >= DEFAULT_ACTION_SIZE && d.Fits()
    ensures var b' := Put(Addressed(DefaultActionCreated(HeaderCreated(b)), d.xid, d.tableName), DEFAULT_ACTION + 1, d.actionName);
            && Length(b') == DEFAULT_ACTION_SIZE && b'[0] == P4_VERSION && b'[1] == SET_DEFAULT_ACTION && b'[4..8] == ToBytes(d.xid, 4)
            && b'[HEADER_SIZE..DEFAULT_ACTION] == d.tableName && b'[DEFAULT_ACTION] == 0
            && b'[DEFAULT_ACTION + 1..DEFAULT_ACTION + 129] == d.actionName && b'[DEFAULT_ACTION + 129] == 0
  {
    hide Put, ToBytes, HeaderCreated, Number;
    var b0 := HeaderCreated(b);
    var b1 := Put(b0, 2, ToBytes(DEFAULT_ACTION_SIZE, 2));
    var b2 := Put(b1, 1, [SET_DEFAULT_ACTION]);
    var b3 := Put(b2, HEADER_SIZE, [0]);
    var b4 := Put(b3, DEFAULT_ACTION, [0, 0]);
    var b5 := b4[DEFAULT_ACTION + 129 := 0];
    var b6 := Put(b5, 4, ToBytes(d.xid, 4));
    var b7 := Put(b6, HEADER_SIZE, d.tableName);
    var b8 := Put(b7, DEFAULT_ACTION + 1, d.actionName);
    PutLands(b0, 2, ToBytes(DEFAULT_ACTION_SIZE, 2));
    PutLands(b1, 1, [SET_DEFAULT_ACTION]);
    PutLands(b2, HEADER_SIZE, [0]);
    PutLands(b3, DEFAULT_ACTION, [0, 0]);
    PutLands(b5, 4, ToBytes(d.xid, 4));
    PutLands(b6, HEADER_SIZE, d.tableName);
    PutLands(b7, DEFAULT_ACTION + 1, d.actionName);
    HeaderVersion(b);
    assert b2[1] == b2[1..2][0] && b4[DEFAULT_ACTION] == b4[DEFAULT_ACTION..DEFAULT_ACTION + 2][0];
    assert Same(b1, b8, 2, 4);
    SameSlice(b1, b8, 2, 4, 2, 4);
    assert Same(b6, b8, 4, HEADER_SIZE);
    SameSlice(b6, b8, 4, HEADER_SIZE, 4, 8);
    SameSlice(b7, b8, 0, DEFAULT_ACTION + 1, HEADER_SIZE, DEFAULT_ACTION);
    SmallNumber(DEFAULT_ACTION_SIZE);
  }

  lemma {:induction false} DefaultHeaderConverted(b: seq<Byte>, d: DefaultAction, length: nat, host: bool, net: bool)
    requires DefaultAt(b, d, length, host, net)
    ensures DefaultAt(HeaderConverted(b), d, length, !host, net)
  {
    hide HeaderConverted, ParamsAt, Counted, Ordered;
    var b' := HeaderConverted(b);
    HeaderConvertedParts(b);
    ReversedOrdered(length, 2, !host);
    ReversedOrdered(d.xid, 4, !host);
    ParamsStay(b, b', DEFAULT_ACTION_SIZE, d.params, net);
    SameSlice(b, b', 8, |b|, HEADER_SIZE, DEFAULT_ACTION);
    SameSlice(b, b', 8, |b|, DEFAULT_ACTION + 1, DEFAULT_ACTION + 129);
  }

  function DefaultSize(d: DefaultAction): nat { ParamsEnd(d.params, DEFAULT_ACTION_SIZE) }

  /** A default action needs one byte more than it takes if it has no parameters. */
  lemma {:induction false} DefaultSentParts(b: seq<Byte>, d: DefaultAction, max: nat)
    requires max <= |b| && max < 65536 && d.Fits()
    ensures DefaultActionSent(b, d, max).Some? <==> DefaultSize(d) <= max && DEFAULT_ACTION_SIZE < max
    ensures DefaultActionSent(b, d, max).Some? ==> DefaultAt(DefaultActionSent(b, d, max).value, d, DefaultSize(d), false, true)
  {
    hide Addressed, DefaultActionCreated, HeaderCreated, HeaderConverted, ParamsAt, ParamsSent, Length, Put, Number,
         Counted;
    if DEFAULT_ACTION_SIZE < max {
      var b0 := Put(Addressed(DefaultActionCreated(HeaderCreated(b)), d.xid, d.tableName), DEFAULT_ACTION + 1, d.actionName);
      DefaultStarted(b, d);
      ParamsSentParts(b0, DEFAULT_ACTION, d.params, max);
      var r := ParamsSent(b0, DEFAULT_ACTION, d.params, max);
      if r.Some? {
        NumberBytes(r.value, DefaultSize(d));
        SameSlice(b0, r.value, 4, DEFAULT_ACTION + 129, 4, 8);
        SameSlice(b0, r.value, 4, DEFAULT_ACTION + 129, HEADER_SIZE, DEFAULT_ACTION);
        SameSlice(b0, r.value, 4, DEFAULT_ACTION + 129, DEFAULT_ACTION + 1, DEFAULT_ACTION + 129);
        assert DefaultAt(r.value, d, DefaultSize(d), true, true);
        DefaultHeaderConverted(r.value, d, DefaultSize(d), true, true);
      }
    }
  }

  /** A default action of 268 bytes is refused by a buffer of 268 bytes. */
  lemma {:induction false} ExactBufferRefused()
    ensures var name: seq<Byte> := seq(NAME_LEN, _ => 0);
            var d := DefaultAction(1, name, name, []);
            && d.Fits() && DefaultSize(d) == DEFAULT_ACTION_SIZE
            && DefaultActionSent(seq(DEFAULT_ACTION_SIZE, _ => 0), d, DEFAULT_ACTION_SIZE).None?
  {
    hide DefaultActionSent;
    var name: seq<Byte> := seq(NAME_LEN, _ => 0);
    DefaultSentParts(seq(DEFAULT_ACTION_SIZE, _ => 0), DefaultAction(1, name, name, []), DEFAULT_ACTION_SIZE);
  }

  ghost predicate RecoversDefault(msg: CtrlMsg, b: seq<Byte>, d: DefaultAction) {
    && msg.DefaultActionMsg? && msg.xid == d.xid && msg.actionType == 0
    && ReadName(b, msg.tableName) == Some(d.tableName) && ReadName(b, msg.actionName) == Some(d.actionName)
    && |msg.paramAt| == |d.params| && (forall i | 0 <= i < |d.params| :: ReadParam(b, msg.paramAt[i]) == Some(d.params[i]))
  }

  lemma {:induction false} DefaultFacts(b: seq<Byte>, d: DefaultAction, length: nat, net: bool)
    requires DefaultAt(b, d, length, true, net) && d.Fits() && length < 65536
    ensures |b| >= DEFAULT_ACTION_SIZE && b[DEFAULT_ACTION + 129] == |d.params| && Xid(b) == d.xid
            && Length(b) == length
    ensures b[1] == SET_DEFAULT_ACTION && |d.tableName| == |d.actionName| == NAME_LEN
  {
    hide ParamsAt, ToBytes;
    FewParams(d.params, DEFAULT_ACTION_SIZE);
    CountedSum(0, |d.params|);
    XidOf(b, d.xid);
    SmallNumber(length);
  }

  lemma {:induction false} DefaultReceivedParts(b: seq<Byte>, d: DefaultAction, length: nat)
    requires DefaultAt(b, d, length, true, true) && d.Fits() && length < 65536
    ensures var (r, b') := DefaultActionReceived(b);
            if |d.params| > MAX_PARAMS then r == Refused(-1) else r.Handled? && RecoversDefault(r.msg, b', d)
  {
    hide ParamsReceived, ParamsAt, ReadParam, ParamAddrs, Counted, Xid, ParamsEnd, DefaultAction.Fits, Ordered;
    DefaultFacts(b, d, length, true);
    ParamsReceivedParts(b, DEFAULT_ACTION_SIZE, d.params);
    var v := ParamsReceived(b, DEFAULT_ACTION_SIZE, |d.params|).value;
    SameSlice(b, v.buf, 0, DEFAULT_ACTION_SIZE, HEADER_SIZE, DEFAULT_ACTION);
    SameSlice(b, v.buf, 0, DEFAULT_ACTION_SIZE, DEFAULT_ACTION + 1, DEFAULT_ACTION + 129);
    forall i | 0 <= i < |d.params| ensures ReadParam(v.buf, v.at[i]) == Some(d.params[i]) {
      ReadParamsAt(v.buf, DEFAULT_ACTION_SIZE, d.params, i);
    }
  }

  /** The round trip for default actions. */
  lemma {:induction false} DefaultRoundTrip(b: seq<Byte>, d: DefaultAction, max: nat, length: nat)
    requires max <= length <= |b| && max < 65536 && d.Fits()
    ensures DefaultActionSent(b, d, max).Some? <==> DefaultSize(d) <= max && DEFAULT_ACTION_SIZE < max
    ensures DefaultActionSent(b, d, max).Some? ==>
              var (r, b') := Received(DefaultActionSent(b, d, max).value, length);
              if |d.params| > MAX_PARAMS then r == Refused(-1) else r.Handled? && RecoversDefault(r.msg, b', d)
  {
    hide DefaultActionSent, HeaderConverted, DefaultAt, EntryReceived, DefaultActionReceived, RecoversDefault, Length,
         DefaultAction.Fits, Xid;
    DefaultSentParts(b, d, max);
    if DefaultActionSent(b, d, max).Some? {
      var sent := DefaultActionSent(b, d, max).value;
      DefaultHeaderConverted(sent, d, DefaultSize(d), false, true);
      DefaultFacts(HeaderConverted(sent), d, DefaultSize(d), true);
      DefaultReceivedParts(HeaderConverted(sent), d, DefaultSize(d));
    }
  }
}
