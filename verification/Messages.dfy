/** The control messages and how a sender builds them in place in a buffer. All numbers in the structures are
    kept in host order while a message is built; each part is converted once before sending. */
module Messages {
  import opened Options
  import opened Memory
  import opened Wire

  // Sizes and offsets of the structures, with the compiler's padding.
  const NAME_LEN: nat := 128
  const ENTRY_SIZE: nat := 140           // header, table name at 8, number of matches at 136
  const READ_SIZE: nat := 136
  const MATCH_BODY: nat := 132           // after name, kind at 128 and length at 130
  const ACTION_SIZE: nat := 130          // type, name at 1, number of parameters at 129
  const PARAM_SIZE: nat := 260           // name, length at 128, bitmap at 132
  const PARAM_BITMAP: nat := 128
  const FIELD_LEN: nat := 256
  const DEFAULT_ACTION_SIZE: nat := 268  // header, table name at 8, action at 136
  const DEFAULT_ACTION: nat := 136

  const P4_VERSION: Byte := 1
  const CTRL_INITIALIZED: Byte := 5
  const SET_DEFAULT_ACTION: Byte := 103
  const ADD_TABLE_ENTRY: Byte := 104

  // ---------------------------------------------------------------- what messages say

  datatype Match =
    | Exact(name: seq<Byte>, length: nat, bitmap: seq<Byte>)
    | Ternary(name: seq<Byte>, length: nat, priority: Byte, bitmap: seq<Byte>, mask: seq<Byte>)
    | Lpm(name: seq<Byte>, prefixLength: nat, bitmap: seq<Byte>)
    | Range(name: seq<Byte>, length: nat, isSigned: Byte, minBitmap: seq<Byte>, maxBitmap: seq<Byte>)
    | Valid(name: seq<Byte>, length: nat, isValid: Byte, bitmap: seq<Byte>)
  {
    function Kind(): Byte {
      match this
      case Exact(_, _, _) => 0
      case Ternary(_, _, _, _, _) => 1
      case Lpm(_, _, _) => 2
      case Range(_, _, _, _, _) => 3
      case Valid(_, _, _, _) => 4
    }

    /** The number that is converted: the length, or the prefix length. */
    function Number(): nat {
      if Lpm? then prefixLength else length
    }

    /** The bytes after that number. */
    function Body(): seq<Byte> {
      match this
      case Exact(_, _, b) => b
      case Ternary(_, _, p, b, m) => [p] + b + m
      case Lpm(_, _, b) => b
      case Range(_, _, s, lo, hi) => [s] + lo + hi
      case Valid(_, _, v, b) => [v] + b
    }

    /** The values fit their fields. */
    predicate Fits() {
      && |name| == NAME_LEN && Number() < 65536
      && (match this
          case Exact(_, _, b) => |b| == FIELD_LEN
          case Ternary(_, _, _, b, m) => |b| == |m| == FIELD_LEN
          case Lpm(_, _, b) => |b| == FIELD_LEN
          case Range(_, _, _, lo, hi) => |lo| == |hi| == FIELD_LEN
          case Valid(_, _, _, b) => |b| == FIELD_LEN)
    }
  }

  /** The size of the structure for a kind of match; unknown kinds have size zero. */
  function MatchSize(kind: Byte): nat {
    if kind == 0 || kind == 2 then 388
    else if kind == 1 || kind == 3 then 646
    else if kind == 4 then 390
    else 0
  }

  function BodySize(kind: Byte): nat
    requires kind <= 4
  {
    if kind == 0 || kind == 2 then FIELD_LEN else if kind == 4 then 1 + FIELD_LEN else 1 + FIELD_LEN + FIELD_LEN
  }

  lemma {:induction false} BodyFits(m: Match)
    requires m.Fits()
    ensures m.Kind() <= 4 && |m.name| == NAME_LEN && m.Number() < Limit(2)
    ensures |m.Body()| == BodySize(m.Kind()) && MATCH_BODY + |m.Body()| <= MatchSize(m.Kind()) <= 646
  {
    assert Limit(2) == 256 * Limit(1) && Limit(1) == 256 * Limit(0);
  }

  /** How a reader takes the fields of a match apart. */
  function MatchOf(kind: Byte, name: seq<Byte>, number: nat, body: seq<Byte>): Match
    requires kind <= 4 && |body| == BodySize(kind)
  {
    if kind == 0 then Exact(name, number, body)
    else if kind == 1 then Ternary(name, number, body[0], body[1..1 + FIELD_LEN], body[1 + FIELD_LEN..])
    else if kind == 2 then Lpm(name, number, body)
    else if kind == 3 then Range(name, number, body[0], body[1..1 + FIELD_LEN], body[1 + FIELD_LEN..])
    else Valid(name, number, body[0], body[1..])
  }

  lemma {:induction false} MatchOfParts(m: Match)
    requires m.Fits()
    ensures |m.Body()| == BodySize(m.Kind()) && MatchOf(m.Kind(), m.name, m.Number(), m.Body()) == m
  {
  }

  datatype Param = Param(name: seq<Byte>, length: nat, bitmap: seq<Byte>) {
    predicate Fits() { |name| == NAME_LEN && length < Limit(4) && |bitmap| == PARAM_BITMAP }
  }

  datatype Entry = Entry(xid: nat, tableName: seq<Byte>, matches: seq<Match>, actionName: seq<Byte>, params: seq<Param>) {
    predicate Fits() {
      && xid < Limit(4) && |tableName| == NAME_LEN && |actionName| == NAME_LEN
      && (forall m | m in matches :: m.Fits())
      && (forall p | p in params :: p.Fits())
    }
  }

  datatype DefaultAction = DefaultAction(xid: nat, tableName: seq<Byte>, actionName: seq<Byte>, params: seq<Param>) {
    predicate Fits() {
      && xid < Limit(4) && |tableName| == NAME_LEN && |actionName| == NAME_LEN
      && (forall p | p in params :: p.Fits())
    }
  }

  // ---------------------------------------------------------------- building

  /** A one-byte count, increased. */
  function Next(n: Byte): Byte {
    if n == 255 then 0 else n + 1
  }

  /** The length in the header, in host order. */
  function Length(b: seq<Byte>): nat
    requires |b| >= HEADER_SIZE
  {
    Number(b[2..4])
  }

  function Grown(b: seq<Byte>, size: nat): (r: seq<Byte>)
    requires |b| >= HEADER_SIZE
    ensures |r| == |b|
  {
    Put(b, 2, ToBytes(Length(b) + size, 2))
  }

  function HeaderCreated(b: seq<Byte>): (r: seq<Byte>)
    requires |b| >= HEADER_SIZE
    ensures |r| == |b|
  {
    Put(b, 0, [P4_VERSION, 0] + ToBytes(HEADER_SIZE, 2) + ToBytes(0, 4))
  }

  function EntryCreated(b: seq<Byte>): (r: seq<Byte>)
    requires |b| >= ENTRY_SIZE
    ensures |r| == |b|
  {
    Put(Put(Put(Put(b, 2, ToBytes(ENTRY_SIZE, 2)), 1, [ADD_TABLE_ENTRY]), READ_SIZE, [0]), HEADER_SIZE, [0])
  }

  /** What the sender then writes: the transaction id and the table name. */
  function Addressed(b: seq<Byte>, xid: nat, tableName: seq<Byte>): (r: seq<Byte>)
    requires |b| >= ENTRY_SIZE && |tableName| == NAME_LEN
    ensures |r| == |b|
  {
    Put(Put(b, 4, ToBytes(xid, 4)), HEADER_SIZE, tableName)
  }

  function MatchAdded(b: seq<Byte>, kind: Byte): (r: seq<Byte>)
    requires |b| >= ENTRY_SIZE && kind <= 4 && Length(b) + MatchSize(kind) <= |b|
    ensures |r| == |b|
  {
    var off := Length(b);
    var counted := Put(Grown(b, MatchSize(kind)), READ_SIZE, [Next(b[READ_SIZE])]);
    var typed := Put(Put(counted, off + NAME_LEN, [kind]), off + 130, [0, 0]);
    if kind == 1 || kind == 3 || kind == 4 then Put(typed, off + MATCH_BODY, [0]) else typed
  }

  function MatchFilled(b: seq<Byte>, off: nat, m: Match): (r: seq<Byte>)
    requires m.Fits() && off + MatchSize(m.Kind()) <= |b|
    ensures |r| == |b|
  {
    Put(Put(Put(b, off, m.name), off + 130, ToBytes(m.Number(), 2)), off + MATCH_BODY, m.Body())
  }

  /** A match appended to the message, filled in and converted. */
  function MatchSent(b: seq<Byte>, m: Match): (r: seq<Byte>)
    requires |b| >= ENTRY_SIZE && m.Fits() && Length(b) + MatchSize(m.Kind()) <= |b|
    ensures |r| == |b|
  {
    Swap(MatchFilled(MatchAdded(b, m.Kind()), Length(b), m), Length(b) + 130, 2)
  }

  function ActionAdded(b: seq<Byte>): (r: seq<Byte>)
    requires |b| >= HEADER_SIZE && Length(b) + ACTION_SIZE <= |b|
    ensures |r| == |b|
  {
    var off := Length(b);
    Put(Put(Put(Grown(b, ACTION_SIZE), off, [0]), off + 1, [0]), off + 129, [0])
  }

  function ActionSent(b: seq<Byte>, name: seq<Byte>): (r: seq<Byte>)
    requires |b| >= HEADER_SIZE && Length(b) + ACTION_SIZE <= |b| && |name| == NAME_LEN
    ensures |r| == |b|
  {
    Put(ActionAdded(b), Length(b) + 1, name)
  }

  /** `act` is where the action the parameter belongs to starts. */
  function ParamAdded(b: seq<Byte>, act: nat): (r: seq<Byte>)
    requires |b| >= HEADER_SIZE && act + ACTION_SIZE <= |b| && Length(b) + PARAM_SIZE <= |b|
    ensures |r| == |b|
  {
    var off := Length(b);
    var counted := Put(Grown(b, PARAM_SIZE), act + 129, [Next(b[act + 129])]);
    Put(Put(counted, off, [0]), off + NAME_LEN, ToBytes(0, 4))
  }

  function ParamFilled(b: seq<Byte>, off: nat, p: Param): (r: seq<Byte>)
    requires p.Fits() && off + PARAM_SIZE <= |b|
    ensures |r| == |b|
  {
    Put(Put(Put(b, off, p.name), off + NAME_LEN, ToBytes(p.length, 4)), off + 132, p.bitmap)
  }

  function ParamSent(b: seq<Byte>, act: nat, p: Param): (r: seq<Byte>)
    requires |b| >= HEADER_SIZE && act + ACTION_SIZE <= |b| && p.Fits() && Length(b) + PARAM_SIZE <= |b|
    ensures |r| == |b|
  {
    Swap(ParamFilled(ParamAdded(b, act), Length(b), p), Length(b) + NAME_LEN, 4)
  }

  function HeaderConverted(b: seq<Byte>): (r: seq<Byte>)
    requires |b| >= HEADER_SIZE
    ensures |r| == |b|
  {
    Swap(Swap(b, 2, 2), 4, 4)
  }

  function MatchesSent(b: seq<Byte>, ms: seq<Match>, max: nat): (r: Option<seq<Byte>>)
    requires ENTRY_SIZE <= |b| && max <= |b| && forall m | m in ms :: m.Fits()
    ensures r.Some? ==> |r.value| == |b|
    decreases |ms|
  {
    if ms == [] then Some(b)
    else
      assert ms[0] in ms;
      if Length(b) + MatchSize(ms[0].Kind()) > max then None else MatchesSent(MatchSent(b, ms[0]), ms[1..], max)
  }

  function ParamsSent(b: seq<Byte>, act: nat, ps: seq<Param>, max: nat): (r: Option<seq<Byte>>)
    requires HEADER_SIZE <= |b| && act + ACTION_SIZE <= |b| && max <= |b| && forall p | p in ps :: p.Fits()
    ensures r.Some? ==> |r.value| == |b|
    decreases |ps|
  {
    if ps == [] then Some(b)
    else
      assert ps[0] in ps;
      if Length(b) + PARAM_SIZE > max then None else ParamsSent(ParamSent(b, act, ps[0]), act, ps[1..], max)
  }

  /** A table entry as it is sent; none if it does not fit `max` bytes. */
  function EntrySent(b: seq<Byte>, e: Entry, max: nat): (r: Option<seq<Byte>>)
    requires max <= |b| && e.Fits()
    ensures r.Some? ==> |r.value| == |b| && ENTRY_SIZE < max
  {
    if ENTRY_SIZE >= max then None
    else
      match MatchesSent(Addressed(EntryCreated(HeaderCreated(b)), e.xid, e.tableName), e.matches, max)
      case None => None
      case Some(b1) =>
        if Length(b1) + ACTION_SIZE > max then None
        else
          match ParamsSent(ActionSent(b1, e.actionName), Length(b1), e.params, max)
          case None => None
          case Some(b2) => Some(HeaderConverted(b2))
  }

  function DefaultActionCreated(b: seq<Byte>): (r: seq<Byte>)
    requires |b| >= DEFAULT_ACTION_SIZE
    ensures |r| == |b|
  {
    Put(Put(Put(Put(b, 2, ToBytes(DEFAULT_ACTION_SIZE, 2)), 1, [SET_DEFAULT_ACTION]), HEADER_SIZE, [0]),
        DEFAULT_ACTION, [0, 0])[DEFAULT_ACTION + 129 := 0]
  }

  function DefaultActionSent(b: seq<Byte>, d: DefaultAction, max: nat): (r: Option<seq<Byte>>)
    requires max <= |b| && d.Fits()
    ensures r.Some? ==> |r.value| == |b| && DEFAULT_ACTION_SIZE < max
  {
    if DEFAULT_ACTION_SIZE >= max then None
    else
      var b0 := Addressed(DefaultActionCreated(HeaderCreated(b)), d.xid, d.tableName);
      match ParamsSent(Put(b0, DEFAULT_ACTION + 1, d.actionName), DEFAULT_ACTION, d.params, max)
      case None => None
      case Some(b1) => Some(HeaderConverted(b1))
  }
}
