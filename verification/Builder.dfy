/** Building a message in place, part by part, as a sender does. */
module Builder {
  import opened Options
  import opened Memory
  import opened Wire
  import opened Messages

  method CreateP4Header(buf: array<Byte>, maxLength: nat) returns (ok: bool)
    requires maxLength <= buf.Length
    modifies buf
    ensures ok <==> HEADER_SIZE <= maxLength
    ensures buf[..] == if ok then HeaderCreated(old(buf[..])) else old(buf[..])
  {
    if HEADER_SIZE > maxLength {
      return false;
    }
    PutBytes(buf, 0, [P4_VERSION, 0] + ToBytes(HEADER_SIZE, 2) + ToBytes(0, 4));
    return true;
  }

  /** A buffer that the fixed part just fills is refused too. */
  method CreateP4AddTableEntry(buf: array<Byte>, maxLength: nat) returns (ok: bool)
    requires maxLength <= buf.Length
    modifies buf
    ensures ok <==> ENTRY_SIZE < maxLength
    ensures buf[..] == if ok then EntryCreated(old(buf[..])) else old(buf[..])
  {
    if ENTRY_SIZE >= maxLength {
      return false;
    }
    PutBytes(buf, 2, ToBytes(ENTRY_SIZE, 2));
    PutBytes(buf, 1, [ADD_TABLE_ENTRY]);
    PutBytes(buf, READ_SIZE, [0]);
    PutBytes(buf, HEADER_SIZE, [0]);
    return true;
  }

  method AddP4FieldMatch(buf: array<Byte>, kind: Byte, maxLength: nat) returns (at: Option<nat>)
    requires ENTRY_SIZE <= buf.Length && maxLength <= buf.Length && kind <= 4
    modifies buf
    ensures at == if old(Length(buf[..])) + MatchSize(kind) <= maxLength then Some(old(Length(buf[..]))) else None
    ensures buf[..] == if at.Some? then MatchAdded(old(buf[..]), kind) else old(buf[..])
  {
    hide Put, Length, ToBytes, Number, Limit;
    var off := Length(buf[..]);
    if off + MatchSize(kind) > maxLength {
      return None;
    }
    var count := Next(buf[READ_SIZE]);
    PutBytes(buf, 2, ToBytes(off + MatchSize(kind), 2));
    PutBytes(buf, READ_SIZE, [count]);
    PutBytes(buf, off + NAME_LEN, [kind]);
    PutBytes(buf, off + 130, [0, 0]);
    if kind == 1 || kind == 3 || kind == 4 {
      PutBytes(buf, off + MATCH_BODY, [0]);
    }
    return Some(off);
  }

  method AddP4Action(buf: array<Byte>, maxLength: nat) returns (at: Option<nat>)
    requires HEADER_SIZE <= buf.Length && maxLength <= buf.Length
    modifies buf
    ensures at == if old(Length(buf[..])) + ACTION_SIZE <= maxLength then Some(old(Length(buf[..]))) else None
    ensures buf[..] == if at.Some? then ActionAdded(old(buf[..])) else old(buf[..])
  {
    hide Put, Length, ToBytes, Number, Limit;
    var off := Length(buf[..]);
    if off + ACTION_SIZE > maxLength {
      return None;
    }
    PutBytes(buf, 2, ToBytes(off + ACTION_SIZE, 2));
    PutBytes(buf, off, [0]);
    PutBytes(buf, off + 1, [0]);
    PutBytes(buf, off + 129, [0]);
    return Some(off);
  }

  method AddP4ActionParameter(buf: array<Byte>, act: nat, maxLength: nat) returns (at: Option<nat>)
    requires HEADER_SIZE <= buf.Length && act + ACTION_SIZE <= buf.Length && maxLength <= buf.Length
    modifies buf
    ensures at == if old(Length(buf[..])) + PARAM_SIZE <= maxLength then Some(old(Length(buf[..]))) else None
    ensures buf[..] == if at.Some? then ParamAdded(old(buf[..]), act) else old(buf[..])
  {
    hide Put, Length, ToBytes, Number, Limit;
    var off := Length(buf[..]);
    if off + PARAM_SIZE > maxLength {
      return None;
    }
    var params := Next(buf[act + 129]);
    PutBytes(buf, 2, ToBytes(off + PARAM_SIZE, 2));
    PutBytes(buf, act + 129, [params]);
    PutBytes(buf, off, [0]);
    PutBytes(buf, off + NAME_LEN, ToBytes(0, 4));
    return Some(off);
  }

  /** One match: appended, filled in by the sender, converted. */
  method SendMatch(buf: array<Byte>, m: Match, maxLength: nat) returns (ok: bool)
    requires ENTRY_SIZE <= buf.Length && maxLength <= buf.Length && m.Fits()
    modifies buf
    ensures ok <==> old(Length(buf[..])) + MatchSize(m.Kind()) <= maxLength
    ensures ok ==> buf[..] == MatchSent(old(buf[..]), m)
  {
    BodyFits(m);
    hide Put, Length, Match.Body, Match.Kind, Match.Number, MatchSize, MatchAdded, Swap;
    var at := AddP4FieldMatch(buf, m.Kind(), maxLength);
    if at.None? {
      return false;
    }
    PutBytes(buf, at.value, m.name);
    PutBytes(buf, at.value + 130, ToBytes(m.Number(), 2));
    PutBytes(buf, at.value + MATCH_BODY, m.Body());
    SwapBytes(buf, at.value + 130, 2);
    return true;
  }

  method SendParam(buf: array<Byte>, act: nat, p: Param, maxLength: nat) returns (ok: bool)
    requires HEADER_SIZE <= buf.Length && act + ACTION_SIZE <= buf.Length && maxLength <= buf.Length && p.Fits()
    modifies buf
    ensures ok <==> old(Length(buf[..])) + PARAM_SIZE <= maxLength
    ensures ok ==> buf[..] == ParamSent(old(buf[..]), act, p)
  {
    hide Put, Length, ParamAdded, Swap;
    var at := AddP4ActionParameter(buf, act, maxLength);
    if at.None? {
      return false;
    }
    PutBytes(buf, at.value, p.name);
    PutBytes(buf, at.value + NAME_LEN, ToBytes(p.length, 4));
    PutBytes(buf, at.value + 132, p.bitmap);
    SwapBytes(buf, at.value + NAME_LEN, 4);
    return true;
  }

  method SendParams(buf: array<Byte>, act: nat, ps: seq<Param>, maxLength: nat) returns (ok: bool)
    requires HEADER_SIZE <= buf.Length && act + ACTION_SIZE <= buf.Length && maxLength <= buf.Length
    requires forall p | p in ps :: p.Fits()
    modifies buf
    ensures ok <==> ParamsSent(old(buf[..]), act, ps, maxLength).Some?
    ensures ok ==> buf[..] == ParamsSent(old(buf[..]), act, ps, maxLength).value
  {
    hide ParamSent, Length;
    ghost var all := ParamsSent(buf[..], act, ps, maxLength);
    for i := 0 to |ps|
      invariant ParamsSent(buf[..], act, ps[i..], maxLength) == all
    {
      assert ps[i..][0] == ps[i] && ps[i..][1..] == ps[i + 1..] && ps[i] in ps;
      ok := SendParam(buf, act, ps[i], maxLength);
      if !ok {
        return;
      }
    }
    return true;
  }

  /** A whole table entry; fails if it does not fit. */
  method SendTableEntry(buf: array<Byte>, e: Entry, maxLength: nat) returns (ok: bool)
    requires maxLength <= buf.Length && e.Fits()
    modifies buf
    ensures ok <==> EntrySent(old(buf[..]), e, maxLength).Some?
    ensures ok ==> buf[..] == EntrySent(old(buf[..]), e, maxLength).value
  {
    hide MatchSent, ParamsSent, HeaderCreated, EntryCreated, Swap, Put, Length, ActionAdded;
    ok := CreateP4Header(buf, maxLength);
    if ok {
      ok := CreateP4AddTableEntry(buf, maxLength);
    }
    if !ok {
      return;
    }
    PutBytes(buf, 4, ToBytes(e.xid, 4));
    PutBytes(buf, HEADER_SIZE, e.tableName);
    ghost var all := MatchesSent(buf[..], e.matches, maxLength);
    for i := 0 to |e.matches|
      invariant MatchesSent(buf[..], e.matches[i..], maxLength) == all
    {
      assert e.matches[i..][0] == e.matches[i] && e.matches[i..][1..] == e.matches[i + 1..] && e.matches[i] in e.matches;
      ok := SendMatch(buf, e.matches[i], maxLength);
      if !ok {
        return;
      }
    }
    var act := AddP4Action(buf, maxLength);
    if act.None? {
      return false;
    }
    PutBytes(buf, act.value + 1, e.actionName);
    ok := SendParams(buf, act.value, e.params, maxLength);
    if ok {
      SwapBytes(buf, 2, 2);
      SwapBytes(buf, 4, 4);
    }
  }

  method CreateP4SetDefaultAction(buf: array<Byte>, maxLength: nat) returns (ok: bool)
    requires maxLength <= buf.Length
    modifies buf
    ensures ok <==> DEFAULT_ACTION_SIZE < maxLength
    ensures buf[..] == if ok then DefaultActionCreated(old(buf[..])) else old(buf[..])
  {
    if DEFAULT_ACTION_SIZE >= maxLength {
      return false;
    }
    hide Put;
    PutBytes(buf, 2, ToBytes(DEFAULT_ACTION_SIZE, 2));
    PutBytes(buf, 1, [SET_DEFAULT_ACTION]);
    PutBytes(buf, HEADER_SIZE, [0]);
    PutBytes(buf, DEFAULT_ACTION, [0, 0]);
    buf[DEFAULT_ACTION + 129] := 0;
    return true;
  }

  /** A whole default action; fails if it does not fit. */
  method SendDefaultAction(buf: array<Byte>, d: DefaultAction, maxLength: nat) returns (ok: bool)
    requires maxLength <= buf.Length && d.Fits()
    modifies buf
    ensures ok <==> DefaultActionSent(old(buf[..]), d, maxLength).Some?
    ensures ok ==> buf[..] == DefaultActionSent(old(buf[..]), d, maxLength).value
  {
    hide ParamsSent, HeaderCreated, DefaultActionCreated, Swap, Put, Length;
    ok := CreateP4Header(buf, maxLength);
    if ok {
      ok := CreateP4SetDefaultAction(buf, maxLength);
    }
    if !ok {
      return;
    }
    PutBytes(buf, 4, ToBytes(d.xid, 4));
    PutBytes(buf, HEADER_SIZE, d.tableName);
    PutBytes(buf, DEFAULT_ACTION + 1, d.actionName);
    ok := SendParams(buf, DEFAULT_ACTION, d.params, maxLength);
    if ok {
      SwapBytes(buf, 2, 2);
      SwapBytes(buf, 4, 4);
    }
  }
}
