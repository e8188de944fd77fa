/** How a received message is taken apart in place: the parts are walked and converted to host order, and
    their addresses are handed on. */
module Handlers {
  import opened Options
  import opened Memory
  import opened Wire
  import opened Messages

  const MAX_PARAMS: nat := 10
  const MAX_MATCHES: nat := 10

  /** What the callback is given: pointers into the buffer. */
  datatype CtrlMsg =
    | EntryMsg(xid: nat, tableName: nat, actionType: Byte, actionName: nat, paramAt: seq<nat>, matchAt: seq<nat>)
    | DefaultActionMsg(xid: nat, tableName: nat, actionType: Byte, actionName: nat, paramAt: seq<nat>)
    | InitializedMsg(xid: nat)

  /** `Overrun`: the walk would leave the buffer. */
  datatype Result = Handled(msg: CtrlMsg) | Refused(code: int) | Overrun

  /** The state of a walk over parts: the buffer, the addresses so far, the next address. */
  datatype Walk = Walk(buf: seq<Byte>, at: seq<nat>, end: nat)

  /** A walk whose first addresses were `at`. */
  function After(at: seq<nat>, rest: Option<Walk>): Option<Walk> {
    match rest
    case None => None
    case Some(w) => Some(Walk(w.buf, at + w.at, w.end))
  }

  lemma {:induction false} AfterBoth(at: seq<nat>, off: nat, rest: Option<Walk>)
    ensures After(at, After([off], rest)) == After(at + [off], rest)
  {
    if rest.Some? {
      assert at + ([off] + rest.value.at) == at + [off] + rest.value.at;
    }
  }

  lemma {:induction false} AfterNone(w: Option<Walk>)
    ensures After([], w) == w
  {
    if w.Some? {
      assert [] + w.value.at == w.value.at;
    }
  }

  function MatchesReceived(b: seq<Byte>, off: nat, n: nat): (r: Option<Walk>)
    ensures r.Some? ==> |r.value.buf| == |b| && |r.value.at| == n
    decreases n
  {
    if n == 0 then Some(Walk(b, [], off))
    else if off + NAME_LEN >= |b| then None
    else
      var size := MatchSize(b[off + NAME_LEN]);
      if off + size > |b| then None
      else
        After([off], MatchesReceived(if size > 0 then Swap(b, off + 130, 2) else b, off + size, n - 1))
  }

  function ParamsReceived(b: seq<Byte>, off: nat, n: nat): (r: Option<Walk>)
    ensures r.Some? ==> |r.value.buf| == |b| && |r.value.at| == n
    decreases n
  {
    if n == 0 then Some(Walk(b, [], off))
    else if off + PARAM_SIZE > |b| then None
    else
      After([off], ParamsReceived(Swap(b, off + NAME_LEN, 4), off + PARAM_SIZE, n - 1))
  }

  function Xid(b: seq<Byte>): nat
    requires |b| >= HEADER_SIZE
  {
    Number(b[4..8])
  }

  /** The result and the buffer afterwards. The header has been converted already. */
  function EntryReceived(b: seq<Byte>): (r: (Result, seq<Byte>))
    requires |b| >= HEADER_SIZE
    ensures |r.1| == |b|
  {
    if |b| < ENTRY_SIZE then (Overrun, b)
    else if b[READ_SIZE] > MAX_MATCHES then (Refused(-1), b)
    else
      match MatchesReceived(b, ENTRY_SIZE, b[READ_SIZE])
      case None => (Overrun, b)
      case Some(w) =>
        if w.end + ACTION_SIZE > |b| then (Overrun, w.buf)
        else if w.buf[w.end + 129] > MAX_PARAMS then (Refused(-2), w.buf)
        else
          match ParamsReceived(w.buf, w.end + ACTION_SIZE, w.buf[w.end + 129])
          case None => (Overrun, w.buf)
          case Some(v) => (Handled(EntryMsg(Xid(b), HEADER_SIZE, w.buf[w.end], w.end + 1, v.at, w.at)), v.buf)
  }

  function DefaultActionReceived(b: seq<Byte>): (r: (Result, seq<Byte>))
    requires |b| >= HEADER_SIZE
    ensures |r.1| == |b|
  {
    if |b| < DEFAULT_ACTION_SIZE then (Overrun, b)
    else if b[DEFAULT_ACTION + 129] > MAX_PARAMS then (Refused(-1), b)
    else
      match ParamsReceived(b, DEFAULT_ACTION_SIZE, b[DEFAULT_ACTION + 129])
      case None => (Overrun, b)
      case Some(v) => (Handled(DefaultActionMsg(Xid(b), HEADER_SIZE, b[DEFAULT_ACTION], DEFAULT_ACTION + 1, v.at)), v.buf)
  }

  /** Handling of a message in a buffer of which `length` bytes may be used. */
  function Received(b: seq<Byte>, length: nat): (r: (Result, seq<Byte>))
    requires length <= |b|
    ensures |r.1| == |b|
  {
    if length < HEADER_SIZE then (Refused(-1), b)
    else
      var b1 := HeaderConverted(b);
      if Length(b1) > length then (Refused(-1), b1)
      else if b1[1] == SET_DEFAULT_ACTION then DefaultActionReceived(b1)
      else if b1[1] == ADD_TABLE_ENTRY then EntryReceived(b1)
      else if b1[1] == CTRL_INITIALIZED then (Handled(InitializedMsg(Xid(b1))), b1)
      else (Refused(-100), b1)
  }

  // ---------------------------------------------------------------- answers in terms of the bytes received

  /** The size of a match structure by the kind at its byte 128. */
  function KindSize(kind: Byte): nat {
    match kind
    case 0 => 388
    case 1 => 646
    case 2 => 388
    case 3 => 646
    case 4 => 390
    case _ => 0
  }

  function Spot(at: seq<nat>, end: nat, i: nat): nat { if i < |at| then at[i] else end }

  /** Match structures lie at the addresses `at`, the first at `off`, each where the one before it ends, the last
      up to `end`. All lie inside the buffer. */
  ghost predicate Chain(b: seq<Byte>, off: nat, at: seq<nat>, end: nat) {
    && Spot(at, end, 0) == off
    && forall i | 0 <= i < |at| ::
         && at[i] + 128 < |b| && at[i] + KindSize(b[at[i] + 128]) <= |b|
         && Spot(at, end, i + 1) == at[i] + KindSize(b[at[i] + 128])
  }

  /** A table entry with up to ten matches: they are found one behind the other, then comes the action, then its
      parameters. -2 for more than ten of those. */
  ghost predicate EntryAnswers(b: seq<Byte>, r: Result)
    requires |b| >= 140
  {
    && ((forall at, act: nat :: !(Chain(b, 140, at, act) && |at| == b[136])) ==> r == Overrun)
    && (forall at, act: nat | Chain(b, 140, at, act) && |at| == b[136] ::
          if act + 130 > |b| then r == Overrun
          else if b[act + 129] > 10 then r == Refused(-2)
          else if act + 130 + 260 * b[act + 129] as nat > |b| then r == Overrun
          else r == Handled(EntryMsg(Big4(b, 4), 8, b[act], act + 1, seq(b[act + 129], i => act + 130 + 260 * i), at)))
  }

  /** What a message is answered with, by its bytes: -1 if there are fewer than 8 of them or the length it claims is
      more than there is, -100 for types other than 5, 103 and 104; -1 and -2 for more than ten parts. What is
      handed on carries the transaction id of bytes 4 to 7 and where the parts are. */
  ghost predicate Answers(b: seq<Byte>, length: nat, r: Result)
    requires length <= |b|
  {
    if length < 8 || Big2(b, 2) > length then r == Refused(-1)
    else if b[1] == 5 then r == Handled(InitializedMsg(Big4(b, 4)))
    else if b[1] == 103 then
      && (|b| < 268 ==> r == Overrun)
      && (|b| >= 268 && b[265] > 10 ==> r == Refused(-1))
      && (|b| >= 268 && b[265] <= 10 ==>
            if 268 + 260 * b[265] as nat > |b| then r == Overrun
            else r == Handled(DefaultActionMsg(Big4(b, 4), 8, b[136], 137, seq(b[265], i => 268 + 260 * i))))
    else if b[1] == 104 then
      && (|b| < 140 ==> r == Overrun)
      && (|b| >= 140 && b[136] > 10 ==> r == Refused(-1))
      && (|b| >= 140 && b[136] <= 10 ==> EntryAnswers(b, r))
    else r == Refused(-100)
  }

  lemma {:induction false} ConvertedBytes(b: seq<Byte>)
    requires |b| >= 8
    ensures var b1 := HeaderConverted(b);
            && Length(b1) == Big2(b, 2) && Xid(b1) == Big4(b, 4) && b1[1] == b[1]
            && forall i | 8 <= i < |b| :: b1[i] == b[i]
  {
    hide Number, Big2, Big4;
    Big2IsNumber(b, 2);
    Big4IsNumber(b, 4);
    assert Swap(b, 2, 2)[4..8] == b[4..8];
    assert HeaderConverted(b)[2..4] == Reversed(b[2..4]);
    assert HeaderConverted(b)[4..8] == Reversed(b[4..8]);
  }

  /** The buffer after the conversion of the match at `off`. */
  function MatchDone(b: seq<Byte>, off: nat): (r: seq<Byte>)
    requires off + 128 < |b| && off + MatchSize(b[off + 128]) <= |b|
    ensures |r| == |b|
  {
    if MatchSize(b[off + 128]) > 0 then Swap(b, off + 130, 2) else b
  }

  lemma {:induction false} WalkStep(b: seq<Byte>, b0: seq<Byte>, off: nat, n: nat)
    requires Same(b0, b, off, |b0|) && n > 0
    ensures if off + 128 < |b0| && off + KindSize(b0[off + 128]) <= |b0| then
              var size := KindSize(b0[off + 128]);
              && off + 128 < |b| && off + MatchSize(b[off + 128]) <= |b| && Same(b0, MatchDone(b, off), off + size, |b0|)
              && MatchesReceived(b, off, n) == After([off], MatchesReceived(MatchDone(b, off), off + size, n - 1))
            else MatchesReceived(b, off, n) == None
  {
    hide Put;
    if off + 128 < |b| {
      assert b[off + 128] == b0[off + 128] && MatchSize(b[off + 128]) == KindSize(b0[off + 128]);
      if 0 < MatchSize(b[off + 128]) && off + MatchSize(b[off + 128]) <= |b| {
        PutLands(b, off + 130, Reversed(b[off + 130..off + 132]));
      }
    }
  }

  /** The walk over the matches goes along the chain of the bytes as they were received: converting one match does
      not touch those behind it. */
  lemma {:induction false} WalkIsChain(b: seq<Byte>, b0: seq<Byte>, off: nat, n: nat)
    requires Same(b0, b, off, |b0|)
    ensures var r := MatchesReceived(b, off, n);
            r.Some? ==>
              && Chain(b0, off, r.value.at, r.value.end) && off <= r.value.end
              && Same(b0, r.value.buf, r.value.end, |b0|)
    decreases n
  {
    hide *;
    if n == 0 {
      WalkNothing(b, off);
    } else {
      WalkStep(b, b0, off, n);
      if off + 128 < |b0| && off + KindSize(b0[off + 128]) <= |b0| {
        var size := KindSize(b0[off + 128]);
        WalkIsChain(MatchDone(b, off), b0, off + size, n - 1);
        var rest := MatchesReceived(MatchDone(b, off), off + size, n - 1);
        AfterFirst(off, rest);
        if rest.Some? { ChainMore(b0, off, rest.value.at, rest.value.end); }
      }
    }
  }

  lemma {:induction false} WalkNothing(b: seq<Byte>, off: nat)
    ensures MatchesReceived(b, off, 0) == Some(Walk(b, [], off))
    ensures forall b0 :: Chain(b0, off, [], off)
  {
  }

  lemma {:induction false} AfterFirst(off: nat, rest: Option<Walk>)
    ensures After([off], rest)
         == if rest.None? then None else Some(Walk(rest.value.buf, [off] + rest.value.at, rest.value.end))
  {
  }

  lemma {:induction false} ChainMore(b: seq<Byte>, off: nat, at: seq<nat>, end: nat)
    requires off + 128 < |b| && off + KindSize(b[off + 128]) <= |b| && Chain(b, off + KindSize(b[off + 128]), at, end)
    ensures Chain(b, off, [off] + at, end)
  {
    forall i | 0 <= i < |at| + 1
      ensures ([off] + at)[i] + 128 < |b| && ([off] + at)[i] + KindSize(b[([off] + at)[i] + 128]) <= |b|
      ensures Spot([off] + at, end, i + 1) == ([off] + at)[i] + KindSize(b[([off] + at)[i] + 128])
    {
      if i > 0 { assert Spot(at, end, i) == Spot([off] + at, end, i + 1); }
    }
  }

  lemma {:induction false} ChainRest(b: seq<Byte>, off: nat, at: seq<nat>, end: nat)
    requires Chain(b, off, at, end)
    ensures at == [] ==> end == off
    ensures at != [] ==>
              && at == [off] + at[1..] && off + 128 < |b| && off + KindSize(b[off + 128]) <= |b|
              && Chain(b, off + KindSize(b[off + 128]), at[1..], end)
  {
    if at != [] {
      assert Spot(at, end, 0 + 1) == off + KindSize(b[off + 128]);
      forall i | 0 <= i < |at| ensures Spot(at[1..], end, i) == Spot(at, end, i + 1) {
      }
    }
  }

  /** Where there is a chain the walk finds it. */
  lemma {:induction false} ChainIsWalked(b: seq<Byte>, b0: seq<Byte>, off: nat, at: seq<nat>, end: nat)
    requires Same(b0, b, off, |b0|) && Chain(b0, off, at, end)
    ensures var r := MatchesReceived(b, off, |at|); r.Some? && r.value.at == at && r.value.end == end
    decreases |at|
  {
    ChainRest(b0, off, at, end);
    if at != [] {
      hide Same, MatchesReceived, MatchDone, Chain, KindSize, MatchSize;
      WalkStep(b, b0, off, |at|);
      ChainIsWalked(MatchDone(b, off), b0, off + KindSize(b0[off + 128]), at[1..], end);
    }
  }

  lemma {:induction false} EntryAnswersByBytes(b: seq<Byte>, b1: seq<Byte>)
    requires |b| == |b1| >= 140 && b[136] <= 10 && Same(b, b1, 8, |b|) && Xid(b1) == Big4(b, 4)
    ensures EntryAnswers(b, EntryReceived(b1).0)
  {
    hide Xid, Big4, MatchesReceived, ParamsReceived, Chain;
    var n := b[136];
    WalkIsChain(b1, b, 140, n);
    var r := MatchesReceived(b1, 140, n);
    forall at, act: nat | Chain(b, 140, at, act) && |at| == n
      ensures r.Some? && r.value.at == at && r.value.end == act
    {
      ChainIsWalked(b1, b, 140, at, act);
    }
    if r.Some? {
      var act := r.value.end;
      if act + 130 <= |b| { ParamWalk(r.value.buf, act + 130, r.value.buf[act + 129]); }
    }
  }

  lemma {:induction false} AnswersByType(b: seq<Byte>, length: nat)
    requires length <= |b|
    ensures Answers(b, length, Received(b, length).0)
  {
    hide HeaderConverted, Length, Xid, Big2, Big4, MatchesReceived, ParamsReceived, EntryAnswers;
    if length >= 8 {
      ConvertedBytes(b);
      var b1 := HeaderConverted(b);
      if |b| >= 268 && b[265] <= 10 { ParamWalk(b1, 268, b[265]); }
      if |b| >= 140 && b[136] <= 10 && b[1] == 104 { EntryAnswersByBytes(b, b1); }
    }
  }

  /** The parameters are 260 bytes each; the walk leaves the buffer exactly if they do. */
  lemma {:induction false} ParamWalk(b: seq<Byte>, off: nat, n: nat)
    requires off <= |b|
    ensures ParamsReceived(b, off, n).Some? <==> off + 260 * n <= |b|
    ensures ParamsReceived(b, off, n).Some? ==> ParamsReceived(b, off, n).value.at == seq(n, i => off + 260 * i)
    decreases n
  {
    hide Swap;
    if n > 0 && off + 260 <= |b| {
      ParamWalk(Swap(b, off + NAME_LEN, 4), off + 260, n - 1);
      var rest := ParamsReceived(Swap(b, off + NAME_LEN, 4), off + 260, n - 1);
      if rest.Some? {
        assert seq(n, i => off + 260 * i) == [off] + seq(n - 1, i => off + 260 + 260 * i);
        assert seq(n - 1, i => (off + 260) + 260 * i) == seq(n - 1, i => off + 260 + 260 * i);
      }
    }
  }

  /** A match of an unknown kind has no size: the walk does not get past it, and hands on its address for every
      match that is left. */
  lemma {:induction false} UnknownKindStays(b: seq<Byte>, off: nat, n: nat)
    requires off + 128 < |b| && b[off + 128] > 4
    ensures MatchesReceived(b, off, n) == Some(Walk(b, seq(n, _ => off), off))
    decreases n
  {
    if n > 0 {
      UnknownKindStays(b, off, n - 1);
      assert seq(n, _ => off) == [off] + seq(n - 1, _ => off);
    } else {
      assert seq(0, _ => off) == [];
    }
  }

  // ---------------------------------------------------------------- reading through the pointers

  function ReadMatch(b: seq<Byte>, at: nat): Option<Match> {
    if at + MATCH_BODY > |b| || b[at + NAME_LEN] > 4 || at + MATCH_BODY + BodySize(b[at + NAME_LEN]) > |b| then None
    else
      var kind := b[at + NAME_LEN];
      Some(MatchOf(kind, b[at..at + NAME_LEN], Number(b[at + 130..at + 132]), b[at + MATCH_BODY..at + MATCH_BODY + BodySize(kind)]))
  }

  function ReadParam(b: seq<Byte>, at: nat): Option<Param> {
    if at + PARAM_SIZE > |b| then None
    else Some(Param(b[at..at + NAME_LEN], Number(b[at + NAME_LEN..at + 132]), b[at + 132..at + PARAM_SIZE]))
  }

  function ReadName(b: seq<Byte>, at: nat): Option<seq<Byte>> {
    if at + NAME_LEN > |b| then None else Some(b[at..at + NAME_LEN])
  }

  // ---------------------------------------------------------------- the loops

  method ConvertMatches(buf: array<Byte>, start: nat, n: nat) returns (r: Option<(seq<nat>, nat)>)
    modifies buf
    ensures var w := MatchesReceived(old(buf[..]), start, n);
            && r == (match w case None => None case Some(v) => Some((v.at, v.end)))
            && (w.Some? ==> buf[..] == w.value.buf)
  {
    hide Swap, MatchSize;
    ghost var all := MatchesReceived(buf[..], start, n);
    var offset: nat, at: seq<nat> := start, [];
    var i := 0;
    AfterNone(all);
    while i < n
      invariant 0 <= i <= n
      invariant all == After(at, MatchesReceived(buf[..], offset, n - i))
    {
      if offset + NAME_LEN >= buf.Length {
        return None;
      }
      var size := MatchSize(buf[offset + NAME_LEN]);
      if offset + size > buf.Length {
        return None;
      }
      SizeCovers(buf[offset + NAME_LEN]);
      ghost var b1 := if size > 0 then Swap(buf[..], offset + 130, 2) else buf[..];
      AfterBoth(at, offset, MatchesReceived(b1, offset + size, n - i - 1));
      if size > 0 {
        SwapBytes(buf, offset + 130, 2);
      }
      at := at + [offset];
      offset := offset + size;
      i := i + 1;
    }
    assert at + [] == at;
    return Some((at, offset));
  }

  lemma {:induction false} SizeCovers(kind: Byte)
    ensures MatchSize(kind) > 0 ==> MATCH_BODY <= MatchSize(kind)
  {
  }

  method ConvertParams(buf: array<Byte>, start: nat, n: nat) returns (r: Option<seq<nat>>)
    modifies buf
    ensures var w := ParamsReceived(old(buf[..]), start, n);
            r == (match w case None => None case Some(v) => Some(v.at)) && (w.Some? ==> buf[..] == w.value.buf)
  {
    hide Swap;
    ghost var all := ParamsReceived(buf[..], start, n);
    var offset: nat, at: seq<nat> := start, [];
    var i := 0;
    AfterNone(all);
    while i < n
      invariant 0 <= i <= n
      invariant all == After(at, ParamsReceived(buf[..], offset, n - i))
    {
      if offset + PARAM_SIZE > buf.Length {
        return None;
      }
      AfterBoth(at, offset, ParamsReceived(Swap(buf[..], offset + NAME_LEN, 4), offset + PARAM_SIZE, n - i - 1));
      SwapBytes(buf, offset + NAME_LEN, 4);
      at := at + [offset];
      offset := offset + PARAM_SIZE;
      i := i + 1;
    }
    assert at + [] == at;
    return Some(at);
  }

  method HandleP4AddTableEntry(buf: array<Byte>) returns (r: Result)
    requires buf.Length >= HEADER_SIZE
    modifies buf
    ensures r == EntryReceived(old(buf[..])).0
    ensures !r.Overrun? ==> buf[..] == EntryReceived(old(buf[..])).1
  {
    hide MatchesReceived, ParamsReceived;
    if buf.Length < ENTRY_SIZE {
      return Overrun;
    }
    var xid := Number(buf[4..8]);
    assert buf[..][4..8] == buf[4..8];
    if buf[READ_SIZE] > MAX_MATCHES {
      return Refused(-1);
    }
    var matches := ConvertMatches(buf, ENTRY_SIZE, buf[READ_SIZE]);
    if matches.None? {
      return Overrun;
    }
    var (matchAt, action) := matches.value;
    if action + ACTION_SIZE > buf.Length {
      return Overrun;
    }
    var actionType, numParams := buf[action], buf[action + 129];
    if numParams > MAX_PARAMS {
      return Refused(-2);
    }
    var paramAt := ConvertParams(buf, action + ACTION_SIZE, numParams);
    match paramAt {
      case None => return Overrun;
      case Some(at) => return Handled(EntryMsg(xid, HEADER_SIZE, actionType, action + 1, at, matchAt));
    }
  }

  method HandleP4SetDefaultAction(buf: array<Byte>) returns (r: Result)
    requires buf.Length >= HEADER_SIZE
    modifies buf
    ensures r == DefaultActionReceived(old(buf[..])).0
    ensures !r.Overrun? ==> buf[..] == DefaultActionReceived(old(buf[..])).1
  {
    if buf.Length < DEFAULT_ACTION_SIZE {
      return Overrun;
    }
    var xid, actionType, numParams := Number(buf[4..8]), buf[DEFAULT_ACTION], buf[DEFAULT_ACTION + 129];
    assert buf[..][4..8] == buf[4..8];
    if numParams > MAX_PARAMS {
      return Refused(-1);
    }
    var paramAt := ConvertParams(buf, DEFAULT_ACTION_SIZE, numParams);
    match paramAt {
      case None => return Overrun;
      case Some(at) => return Handled(DefaultActionMsg(xid, HEADER_SIZE, actionType, DEFAULT_ACTION + 1, at));
    }
  }

  method HandleP4Msg(buf: array<Byte>, length: nat) returns (r: Result)
    requires length <= buf.Length
    modifies buf
    ensures r == Received(old(buf[..]), length).0
    ensures !r.Overrun? ==> buf[..] == Received(old(buf[..]), length).1
    ensures Answers(old(buf[..]), length, r)
  {
    hide EntryReceived, DefaultActionReceived, Swap, Answers;
    AnswersByType(buf[..], length);
    if length < HEADER_SIZE {
      return Refused(-1);
    }
    SwapBytes(buf, 2, 2);
    SwapBytes(buf, 4, 4);
    assert buf[..][2..4] == buf[2..4] && buf[..][4..8] == buf[4..8];
    if Number(buf[2..4]) > length {
      return Refused(-1);
    }
    if buf[1] == SET_DEFAULT_ACTION {
      r := HandleP4SetDefaultAction(buf);
    } else if buf[1] == ADD_TABLE_ENTRY {
      r := HandleP4AddTableEntry(buf);
    } else if buf[1] == CTRL_INITIALIZED {
      return Handled(InitializedMsg(Number(buf[4..8])));
    } else {
      return Refused(-100);
    }
  }
}
