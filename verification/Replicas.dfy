/** Replicated lookup tables: one control-plane writer promotes updates while the lcores keep forwarding.

    Each table has several replicas and each lcore one pointer per table. A promote writes the spare replica,
    swaps the lcores' pointers one at a time, sleeps, and then writes the other replicas. An lcore copies its
    pointers at the start of a packet and uses the copies until the packet is done.

    The protocol is a step system; a run is any sequence of enabled actions. The sleep is modelled by what
    it is for: it ends when every packet that was in progress at its start has ended. */
module Replicas {
  import opened Options

  /** A table's content is given by the updates applied to it; any concrete content is a fold over them.
      While an update is being applied the content is `Torn` and must not be looked at. */
  datatype Content<U> = Stable(us: seq<U>) | Torn(us: seq<U>)

  datatype Table<U> = Table(replicas: seq<Content<U>>, active: nat)

  /** An lcore handling a packet has copied the pointers of the tables below |snap| so far. */
  datatype Reader = Idle | Busy(snap: seq<nat>)

  datatype Writer<U> =
    | Resting
    | WritingSpare(tid: nat, u: U, next: nat)
    | Swapping(tid: nat, u: U, next: nat, k: nat)                 // lcores below k are swapped
    | Sleeping(tid: nat, u: U, next: nat, waiting: set<nat>)      // lcores busy since before the sleep
    | Finishing(tid: nat, u: U, next: nat, j: nat)                // replicas below j are done
    | WritingOther(tid: nat, u: U, next: nat, j: nat)

  datatype State<U> = State(
    tables: seq<Table<U>>,
    pointers: seq<seq<nat>>,     // pointers[lcore][table] is a replica number
    readers: seq<Reader>,
    writer: Writer<U>,
    log: seq<seq<U>>)            // per table, all updates whose promote has started

  datatype Action<U> =
    | StartPromote(tid: nat, u: U) | FinishSpare | SwapNext | FallAsleep | WakeUp
    | SkipNew | BeginOther | FinishOther | EndPromote
    | StartPacket(l: nat) | CopyPointer(l: nat) | EndPacket(l: nat)

  // ---------------------------------------------------------------- the steps

  function SetContent<U>(s: State<U>, t: nat, r: nat, c: Content<U>): State<U>
    requires t < |s.tables| && r < |s.tables[t].replicas|
  {
    s.(tables := s.tables[t := s.tables[t].(replicas := s.tables[t].replicas[r := c])])
  }

  predicate Shaped<U>(s: State<U>) {
    && |s.log| == |s.tables| && |s.readers| == |s.pointers|
    && (forall t | 0 <= t < |s.tables| :: |s.tables[t].replicas| >= 2 && s.tables[t].active < |s.tables[t].replicas|)
    && (forall l | 0 <= l < |s.pointers| :: |s.pointers[l]| == |s.tables|)
    && (!s.writer.Resting? ==> s.writer.tid < |s.tables| && s.writer.next < |s.tables[s.writer.tid].replicas|)
  }

  function BusyReaders<U>(s: State<U>): set<nat> {
    set l: nat | l < |s.readers| && s.readers[l].Busy? :: l
  }

  predicate Enabled<U>(s: State<U>, a: Action<U>)
    requires Shaped(s)
  {
    match a
    case StartPromote(tid, u) => s.writer.Resting? && tid < |s.tables|
    case FinishSpare => s.writer.WritingSpare?
    case SwapNext => s.writer.Swapping? && s.writer.k < |s.pointers|
    case FallAsleep => s.writer.Swapping? && s.writer.k == |s.pointers|
    case WakeUp => s.writer.Sleeping? && s.writer.waiting == {}
    case SkipNew => s.writer.Finishing? && s.writer.j == s.writer.next
    case BeginOther => s.writer.Finishing? && s.writer.j < |s.tables[s.writer.tid].replicas| && s.writer.j != s.writer.next
    case FinishOther => s.writer.WritingOther? && s.writer.j < |s.tables[s.writer.tid].replicas|
    case EndPromote => s.writer.Finishing? && s.writer.j == |s.tables[s.writer.tid].replicas|
    case StartPacket(l) => l < |s.readers| && s.readers[l].Idle?
    case CopyPointer(l) => l < |s.readers| && s.readers[l].Busy? && |s.readers[l].snap| < |s.tables|
    case EndPacket(l) => l < |s.readers| && s.readers[l].Busy? && |s.readers[l].snap| == |s.tables|
  }

  function Apply<U>(s: State<U>, a: Action<U>): State<U>
    requires Shaped(s) && Enabled(s, a)
  {
    var w := s.writer;
    match a
    case StartPromote(tid, u) =>
      var next := (s.tables[tid].active + 1) % |s.tables[tid].replicas|;
      SetContent(s, tid, next, Torn(s.tables[tid].replicas[next].us))
        .(writer := WritingSpare(tid, u, next), log := s.log[tid := s.log[tid] + [u]])
    case FinishSpare =>
      SetContent(s, w.tid, w.next, Stable(s.tables[w.tid].replicas[w.next].us + [w.u]))
        .(writer := Swapping(w.tid, w.u, w.next, 0))
    case SwapNext =>
      var row: seq<nat> := s.pointers[w.k][w.tid := w.next];
      s.(pointers := s.pointers[w.k := row],
         tables := s.tables[w.tid := s.tables[w.tid].(active := w.next)],
         writer := Swapping(w.tid, w.u, w.next, w.k + 1))
    case FallAsleep => s.(writer := Sleeping(w.tid, w.u, w.next, BusyReaders(s)))
    case WakeUp => s.(writer := Finishing(w.tid, w.u, w.next, 0))
    case SkipNew => s.(writer := Finishing(w.tid, w.u, w.next, w.j + 1))
    case BeginOther =>
      SetContent(s, w.tid, w.j, Torn(s.tables[w.tid].replicas[w.j].us)).(writer := WritingOther(w.tid, w.u, w.next, w.j))
    case FinishOther =>
      SetContent(s, w.tid, w.j, Stable(s.tables[w.tid].replicas[w.j].us + [w.u]))
        .(writer := Finishing(w.tid, w.u, w.next, w.j + 1))
    case EndPromote => s.(writer := Resting)
    case StartPacket(l) => s.(readers := s.readers[l := Busy([])])
    case CopyPointer(l) =>
      var snap := s.readers[l].snap;
      var more: seq<nat> := snap + [s.pointers[l][|snap|]];
      s.(readers := s.readers[l := Busy(more)])
    case EndPacket(l) =>
      s.(readers := s.readers[l := Idle],
         writer := if w.Sleeping? then Sleeping(w.tid, w.u, w.next, w.waiting - {l}) else w)
  }

  function Init<U>(tables: nat, replicas: nat, lcores: nat): State<U> {
    State(seq(tables, _ => Table(seq(replicas, _ => Stable([])), 0)),
          seq(lcores, _ => seq(tables, _ => 0)),
          seq(lcores, _ => Idle),
          Resting,
          seq(tables, _ => []))
  }

  // ---------------------------------------------------------------- the invariant

  /** The updates a table had before the promote in progress, if there is one on it. */
  ghost function Before<U>(s: State<U>, t: nat): seq<U>
    requires t < |s.log|
  {
    if !s.writer.Resting? && s.writer.tid == t && s.log[t] != [] then s.log[t][..|s.log[t]| - 1] else s.log[t]
  }

  /** Replica `r` of table `t` has the content it should have at this point of the promote. */
  ghost predicate ContentOk<U>(s: State<U>, t: nat, r: nat)
    requires Shaped(s) && t < |s.tables| && r < |s.tables[t].replicas|
  {
    var c, w := s.tables[t].replicas[r], s.writer;
    if w.Resting? || w.tid != t then c == Stable(s.log[t])
    else match w
      case WritingSpare(_, _, next) => c == if r == next then Torn(Before(s, t)) else Stable(Before(s, t))
      case Swapping(_, _, next, _) => c == Stable(if r == next then s.log[t] else Before(s, t))
      case Sleeping(_, _, next, _) => c == Stable(if r == next then s.log[t] else Before(s, t))
      case Finishing(_, _, next, j) => c == Stable(if r == next || r < j then s.log[t] else Before(s, t))
      case WritingOther(_, _, next, j) =>
        c == if r == next || r < j then Stable(s.log[t]) else if r == j then Torn(Before(s, t)) else Stable(Before(s, t))
  }

  /** Where lcore `l` may point for table `t`. */
  ghost predicate PointerOk<U>(s: State<U>, l: nat, t: nat)
    requires Shaped(s) && l < |s.pointers| && t < |s.tables|
  {
    var p, w := s.pointers[l][t], s.writer;
    && p < |s.tables[t].replicas|
    && (if w.Resting? || w.tid != t then p == s.tables[t].active
        else match w
          case WritingSpare(_, _, next) => p != next && p == s.tables[t].active
          case Swapping(_, _, next, k) => (p == next <==> l < k)
          case _ => p == w.next && p == s.tables[t].active)
  }

  /** What lcore `l` may hold a copy of: never a replica that is being written. Once the writer has slept,
      every copy is of the new replica; that is what makes the next spare safe to write. */
  ghost predicate CopyOk<U>(s: State<U>, l: nat, t: nat)
    requires Shaped(s) && l < |s.readers| && t < |s.tables| && s.readers[l].Busy? && t < |s.readers[l].snap|
  {
    var c, w := s.readers[l].snap[t], s.writer;
    && c < |s.tables[t].replicas|
    && (if w.Resting? || w.tid != t then c == s.tables[t].active
        else match w
          case WritingSpare(_, _, next) => c != next
          case Swapping(_, _, next, k) => c == next ==> l < k
          case Sleeping(_, _, next, waiting) => l in waiting || c == next
          case _ => c == w.next)
  }

  ghost predicate WriterOk<U>(s: State<U>)
    requires Shaped(s)
  {
    var w := s.writer;
    w.Resting? ||
    (&& s.log[w.tid] == Before(s, w.tid) + [w.u]
     && (w.Swapping? ==> w.k <= |s.pointers| && (w.k > 0 ==> s.tables[w.tid].active == w.next))
     && (!w.WritingSpare? && !w.Swapping? && |s.pointers| > 0 ==> s.tables[w.tid].active == w.next)
     && (w.Sleeping? ==> forall l | l in w.waiting :: l < |s.readers| && s.readers[l].Busy?)
     && (w.Finishing? ==> w.j <= |s.tables[w.tid].replicas|)
     && (w.WritingOther? ==> w.j < |s.tables[w.tid].replicas| && w.j != w.next))
  }

  ghost predicate ContentsOk<U>(s: State<U>)
    requires Shaped(s)
  {
    forall t, r | 0 <= t < |s.tables| && 0 <= r < |s.tables[t].replicas| :: ContentOk(s, t, r)
  }

  ghost predicate PointersOk<U>(s: State<U>)
    requires Shaped(s)
  {
    forall l, t | 0 <= l < |s.pointers| && 0 <= t < |s.tables| :: PointerOk(s, l, t)
  }

  ghost predicate CopiesOk<U>(s: State<U>)
    requires Shaped(s)
  {
    && (forall l | 0 <= l < |s.readers| && s.readers[l].Busy? :: |s.readers[l].snap| <= |s.tables|)
    && (forall l, t | 0 <= l < |s.readers| && s.readers[l].Busy? && 0 <= t < |s.readers[l].snap| :: CopyOk(s, l, t))
  }

  ghost predicate Inv<U>(s: State<U>) {
    Shaped(s) && WriterOk(s) && ContentsOk(s) && PointersOk(s) && CopiesOk(s)
  }

  lemma {:induction false} InitInv<U>(tables: nat, replicas: nat, lcores: nat)
    requires replicas >= 2
    ensures Inv(Init<U>(tables, replicas, lcores))
  {
  }

  ghost predicate SameShape<U>(s: State<U>, s': State<U>) {
    && |s'.tables| == |s.tables| && |s'.pointers| == |s.pointers| && |s'.readers| == |s.readers|
    && forall t | 0 <= t < |s.tables| :: |s'.tables[t].replicas| == |s.tables[t].replicas|
  }

  lemma {:induction false} StepShape<U>(s: State<U>, a: Action<U>)
    requires Shaped(s) && Enabled(s, a)
    ensures Shaped(Apply(s, a)) && SameShape(s, Apply(s, a))
  {
  }

  lemma {:induction false} StepWriter<U>(s: State<U>, a: Action<U>)
    requires Shaped(s) && WriterOk(s) && Enabled(s, a)
    ensures Shaped(Apply(s, a)) && WriterOk(Apply(s, a))
  {
    StepShape(s, a);
    var s' := Apply(s, a);
    if a.StartPromote? {
      assert s'.log[a.tid][..|s'.log[a.tid]| - 1] == s.log[a.tid];
    }
  }

  lemma {:induction false} StepContent<U>(s: State<U>, a: Action<U>, t: nat, r: nat)
    requires Shaped(s) && WriterOk(s) && Enabled(s, a) && Shaped(Apply(s, a))
    requires t < |s.tables| && r < |s.tables[t].replicas| && ContentOk(s, t, r)
    ensures ContentOk(Apply(s, a), t, r)
  {
    var s' := Apply(s, a);
    if a.StartPromote? && a.tid == t {
      assert s'.log[t][..|s'.log[t]| - 1] == s.log[t];
    }
  }

  lemma {:induction false} StepPointer<U>(s: State<U>, a: Action<U>, l: nat, t: nat)
    requires Shaped(s) && WriterOk(s) && Enabled(s, a) && Shaped(Apply(s, a))
    requires l < |s.pointers| && t < |s.tables| && PointerOk(s, l, t)
    ensures PointerOk(Apply(s, a), l, t)
  {
  }

  lemma {:induction false} StepCopy<U>(s: State<U>, a: Action<U>, l: nat, t: nat)
    requires Shaped(s) && WriterOk(s) && Enabled(s, a) && Shaped(Apply(s, a))
    requires l < |s.readers| && t < |s.tables| && PointerOk(s, l, t)
    requires s.readers[l].Busy? && t < |s.readers[l].snap| ==> CopyOk(s, l, t)
    ensures var s' := Apply(s, a);
            s'.readers[l].Busy? && t < |s'.readers[l].snap| ==> CopyOk(s', l, t)
  {
    hide Before;
  }

  /** A reader starts idle, collects the pointers in table order, and gives them up at the end. */
  lemma {:induction false} StepReader<U>(s: State<U>, a: Action<U>, l: nat)
    requires Shaped(s) && Enabled(s, a) && l < |s.readers|
    ensures var r, r' := s.readers[l], Apply(s, a).readers[l];
            || r' == r || (r.Idle? && r' == Busy([]))
            || (r.Busy? && |r.snap| < |s.tables| && r' == Busy(r.snap + [s.pointers[l][|r.snap|]]))
            || (r.Busy? && r' == Idle)
  {
  }

  /** Every step of the writer and of every reader keeps the invariant. */
  lemma {:induction false} StepInv<U>(s: State<U>, a: Action<U>)
    requires Inv(s) && Enabled(s, a)
    ensures Inv(Apply(s, a))
  {
    hide Apply, ContentOk, PointerOk, CopyOk, WriterOk, Enabled;
    StepShape(s, a);
    StepWriter(s, a);
    var s' := Apply(s, a);
    forall l | 0 <= l < |s'.readers| && s'.readers[l].Busy? ensures |s'.readers[l].snap| <= |s'.tables| {
      StepReader(s, a, l);
    }
    forall t, r | 0 <= t < |s'.tables| && 0 <= r < |s'.tables[t].replicas| ensures ContentOk(s', t, r) {
      assert ContentOk(s, t, r);
      StepContent(s, a, t, r);
    }
    forall l, t | 0 <= l < |s'.pointers| && 0 <= t < |s'.tables| ensures PointerOk(s', l, t) {
      assert PointerOk(s, l, t);
      StepPointer(s, a, l, t);
    }
    forall l, t | 0 <= l < |s'.readers| && s'.readers[l].Busy? && 0 <= t < |s'.readers[l].snap| ensures CopyOk(s', l, t) {
      assert PointerOk(s, l, t);
      assert s.readers[l].Busy? && t < |s.readers[l].snap| ==> CopyOk(s, l, t);
      StepCopy(s, a, l, t);
    }
  }

  // ---------------------------------------------------------------- runs

  /** Every action of `acts`, taken in order from `s`, is enabled. */
  ghost predicate Valid<U>(s: State<U>, acts: seq<Action<U>>)
    decreases |acts|
  {
    Shaped(s) && (acts != [] ==> Enabled(s, acts[0]) && Valid(Apply(s, acts[0]), acts[1..]))
  }

  ghost function After<U>(s: State<U>, acts: seq<Action<U>>): State<U>
    requires Valid(s, acts)
    decreases |acts|
  {
    if acts == [] then s else After(Apply(s, acts[0]), acts[1..])
  }

  lemma {:induction false} RunInv<U>(s: State<U>, acts: seq<Action<U>>)
    requires Inv(s) && Valid(s, acts)
    ensures Inv(After(s, acts))
    decreases |acts|
  {
    if acts != [] {
      StepInv(s, acts[0]);
      RunInv(Apply(s, acts[0]), acts[1..]);
    }
  }

  /** The writer is in the middle of modifying replica `r` of table `t`. */
  predicate Modifies<U>(s: State<U>, t: nat, r: nat) {
    var w := s.writer;
    (w.WritingSpare? && w.tid == t && w.next == r) || (w.WritingOther? && w.tid == t && w.j == r)
  }

  predicate HasCopy<U>(s: State<U>, l: nat, t: nat) {
    l < |s.readers| && t < |s.tables| && s.readers[l].Busy? && t < |s.readers[l].snap|
  }

  ghost function CopiedContent<U>(s: State<U>, l: nat, t: nat): Content<U>
    requires Inv(s) && HasCopy(s, l, t)
  {
    assert CopyOk(s, l, t);
    s.tables[t].replicas[s.readers[l].snap[t]]
  }

  ghost function PointedContent<U>(s: State<U>, l: nat, t: nat): Content<U>
    requires Inv(s) && l < |s.pointers| && t < |s.tables|
  {
    assert PointerOk(s, l, t);
    s.tables[t].replicas[s.pointers[l][t]]
  }

  /** Safety: in every reachable state, whatever the interleaving, no lcore handling a packet holds a copy of
      the replica that is being modified; what it looks up has all updates so far, or all but the last. */
  lemma {:induction false} NoTornLookup<U>(tables: nat, replicas: nat, lcores: nat, acts: seq<Action<U>>, l: nat,
                                           t: nat)
    requires replicas >= 2
    requires Valid(Init<U>(tables, replicas, lcores), acts)
    requires HasCopy(After(Init<U>(tables, replicas, lcores), acts), l, t)
    ensures var s := After(Init<U>(tables, replicas, lcores), acts);
            && Inv(s)
            && !Modifies(s, t, s.readers[l].snap[t])
            && (CopiedContent(s, l, t) == Stable(s.log[t]) || CopiedContent(s, l, t) == Stable(Before(s, t)))
  {
    InitInv<U>(tables, replicas, lcores);
    RunInv(Init<U>(tables, replicas, lcores), acts);
    var s := After(Init<U>(tables, replicas, lcores), acts);
    CopyIsStable(s, l, t);
  }

  lemma {:induction false} CopyIsStable<U>(s: State<U>, l: nat, t: nat)
    requires Inv(s) && HasCopy(s, l, t)
    ensures !Modifies(s, t, s.readers[l].snap[t])
    ensures CopiedContent(s, l, t) == Stable(s.log[t]) || CopiedContent(s, l, t) == Stable(Before(s, t))
  {
    assert CopyOk(s, l, t);
    assert ContentOk(s, t, s.readers[l].snap[t]);
  }

  /** Between promotes all replicas of a table have all its updates; during one, each has all of them or all
      but the last, except the one being modified. */
  lemma {:induction false} ReplicaVersions<U>(tables: nat, replicas: nat, lcores: nat, acts: seq<Action<U>>,
                                              t: nat, r: nat)
    requires replicas >= 2
    requires Valid(Init<U>(tables, replicas, lcores), acts)
    requires var s := After(Init<U>(tables, replicas, lcores), acts); t < |s.tables| && r < |s.tables[t].replicas|
    ensures var s := After(Init<U>(tables, replicas, lcores), acts);
            var c := s.tables[t].replicas[r];
            && Inv(s)
            && (s.writer.Resting? ==> c == Stable(s.log[t]))
            && (c.us == s.log[t] || c.us == Before(s, t))
            && (c.Torn? <==> Modifies(s, t, r))
  {
    InitInv<U>(tables, replicas, lcores);
    RunInv(Init<U>(tables, replicas, lcores), acts);
    var s := After(Init<U>(tables, replicas, lcores), acts);
    assert ContentOk(s, t, r);
  }

  // ---------------------------------------------------------------- one packet, and packet after packet

  /** Only the replica marked as being modified, before or after the step, can change. */
  lemma {:induction false} StepChangesModified<U>(s: State<U>, a: Action<U>, t: nat, r: nat)
    requires Shaped(s) && Enabled(s, a) && t < |s.tables| && r < |s.tables[t].replicas|
    ensures var s' := Apply(s, a);
            && SameShape(s, s')
            && (s'.tables[t].replicas[r] == s.tables[t].replicas[r] || Modifies(s, t, r) || Modifies(s', t, r))
  {
    StepShape(s, a);
  }

  lemma {:induction false} StepKeepsCopy<U>(s: State<U>, a: Action<U>, l: nat, t: nat)
    requires Inv(s) && Enabled(s, a) && HasCopy(s, l, t) && a != EndPacket(l)
    ensures var s' := Apply(s, a);
            && Inv(s') && HasCopy(s', l, t) && s'.readers[l].snap[t] == s.readers[l].snap[t]
            && CopiedContent(s', l, t) == CopiedContent(s, l, t)
  {
    StepInv(s, a);
    StepReader(s, a, l);
    CopyIsStable(s, l, t);
    CopyIsStable(Apply(s, a), l, t);
    assert CopyOk(s, l, t);
    StepChangesModified(s, a, t, s.readers[l].snap[t]);
  }

  /** All lookups an lcore makes in a table while it handles one packet see the same content. */
  lemma {:induction false} PacketSeesOneVersion<U>(s: State<U>, acts: seq<Action<U>>, l: nat, t: nat)
    requires Inv(s) && Valid(s, acts) && HasCopy(s, l, t) && EndPacket(l) !in acts
    ensures Inv(After(s, acts)) && HasCopy(After(s, acts), l, t)
    ensures CopiedContent(After(s, acts), l, t) == CopiedContent(s, l, t)
    decreases |acts|
  {
    if acts != [] {
      StepKeepsCopy(s, acts[0], l, t);
      PacketSeesOneVersion(Apply(s, acts[0]), acts[1..], l, t);
    }
  }

  /** Lcore `l` will see at least the updates `v` of table `t` from here on. */
  ghost predicate SeesAtLeast<U>(s: State<U>, l: nat, t: nat, v: seq<U>)
    requires Inv(s) && l < |s.pointers| && t < |s.tables|
  {
    v <= PointedContent(s, l, t).us && (HasCopy(s, l, t) ==> v <= CopiedContent(s, l, t).us)
  }

  lemma {:induction false} BeforeIsPrefix<U>(s: State<U>, t: nat)
    requires t < |s.log|
    ensures Before(s, t) <= s.log[t]
  {
  }

  /** The pointer is never behind a copy. */
  lemma {:induction false} CopyBehindPointer<U>(s: State<U>, l: nat, t: nat)
    requires Inv(s) && HasCopy(s, l, t)
    ensures CopiedContent(s, l, t).us <= PointedContent(s, l, t).us
  {
    assert CopyOk(s, l, t) && PointerOk(s, l, t);
    assert ContentOk(s, t, s.readers[l].snap[t]) && ContentOk(s, t, s.pointers[l][t]);
    BeforeIsPrefix(s, t);
  }

  lemma {:induction false} PointerMovesForward<U>(s: State<U>, a: Action<U>, l: nat, t: nat)
    requires Inv(s) && Enabled(s, a) && l < |s.pointers| && t < |s.tables| && Inv(Apply(s, a))
    ensures var s' := Apply(s, a);
            |s'.pointers| == |s.pointers| && |s'.tables| == |s.tables|
            && PointedContent(s, l, t).us <= PointedContent(s', l, t).us
  {
    var s' := Apply(s, a);
    assert PointerOk(s, l, t) && PointerOk(s', l, t);
    assert ContentOk(s, t, s.pointers[l][t]) && ContentOk(s, t, s'.pointers[l][t]);
    BeforeIsPrefix(s, t);
  }

  lemma {:induction false} StepSeesAtLeast<U>(s: State<U>, a: Action<U>, l: nat, t: nat, v: seq<U>)
    requires Inv(s) && Enabled(s, a) && l < |s.pointers| && t < |s.tables| && SeesAtLeast(s, l, t, v)
    ensures var s' := Apply(s, a);
            Inv(s') && l < |s'.pointers| && t < |s'.tables| && SeesAtLeast(s', l, t, v)
  {
    var s' := Apply(s, a);
    StepInv(s, a);
    PointerMovesForward(s, a, l, t);
    StepReader(s, a, l);
    if HasCopy(s', l, t) {
      if HasCopy(s, l, t) && a != EndPacket(l) {
        StepKeepsCopy(s, a, l, t);
      } else {
        CopiedFromPointer(s, a, l, t);
      }
    }
  }

  lemma {:induction false} CopiedFromPointer<U>(s: State<U>, a: Action<U>, l: nat, t: nat)
    requires Inv(s) && Enabled(s, a) && Inv(Apply(s, a)) && l < |s.pointers| && t < |s.tables|
    requires HasCopy(Apply(s, a), l, t) && (!HasCopy(s, l, t) || a == EndPacket(l))
    ensures CopiedContent(Apply(s, a), l, t) == PointedContent(s, l, t)
  {
    StepReader(s, a, l);
  }

  /** The version an lcore sees of a table never goes backwards, within a packet or from packet to packet:
      everything it has seen applied stays applied. */
  lemma {:induction false} VersionsMoveForward<U>(s: State<U>, acts: seq<Action<U>>, l: nat, t: nat)
    requires Inv(s) && Valid(s, acts) && HasCopy(s, l, t)
    ensures Inv(After(s, acts))
    ensures HasCopy(After(s, acts), l, t) ==> CopiedContent(s, l, t).us <= CopiedContent(After(s, acts), l, t).us
  {
    CopyBehindPointer(s, l, t);
    RunSeesAtLeast(s, acts, l, t, CopiedContent(s, l, t).us);
  }

  lemma {:induction false} RunSeesAtLeast<U>(s: State<U>, acts: seq<Action<U>>, l: nat, t: nat, v: seq<U>)
    requires Inv(s) && Valid(s, acts) && l < |s.pointers| && t < |s.tables| && SeesAtLeast(s, l, t, v)
    ensures var s' := After(s, acts);
            Inv(s') && l < |s'.pointers| && t < |s'.tables| && SeesAtLeast(s', l, t, v)
    decreases |acts|
  {
    if acts != [] {
      StepSeesAtLeast(s, acts[0], l, t, v);
      RunSeesAtLeast(Apply(s, acts[0]), acts[1..], l, t, v);
    }
  }

  // ---------------------------------------------------------------- the sleep

  /** Ending the sleep keeps the protocol safe if and only if no lcore holds a copy of an old replica.
      `WakeUp` waits for the packets in progress, which is enough. */
  lemma {:induction false} SleepLongEnough<U>(s: State<U>)
    requires Inv(s) && s.writer.Sleeping?
    ensures var w := s.writer;
            Inv(Woken(s))
            <==> (forall l | 0 <= l < |s.readers| && HasCopy(s, l, w.tid) :: s.readers[l].snap[w.tid] == w.next)
  {
    var w := s.writer;
    var s' := Woken(s);
    forall t, r | 0 <= t < |s.tables| && 0 <= r < |s.tables[t].replicas| ensures ContentOk(s', t, r) {
      assert ContentOk(s, t, r);
    }
    forall l, t | 0 <= l < |s.pointers| && 0 <= t < |s.tables| ensures PointerOk(s', l, t) {
      assert PointerOk(s, l, t);
    }
    forall l, t | 0 <= l < |s.readers| && s.readers[l].Busy? && 0 <= t < |s.readers[l].snap|
      ensures CopyOk(s', l, t) <==> (t == w.tid ==> s.readers[l].snap[t] == w.next)
    {
      assert CopyOk(s, l, t);
    }
    forall l | 0 <= l < |s.readers| && HasCopy(s, l, w.tid)
      ensures CopiesOk(s') ==> s.readers[l].snap[w.tid] == w.next
    {
      assert CopiesOk(s') ==> CopyOk(s', l, w.tid);
    }
  }

  /** The state in which the writer stops sleeping now, whoever is still busy. */
  function Woken<U>(s: State<U>): State<U>
    requires s.writer.Sleeping?
  {
    s.(writer := Finishing(s.writer.tid, s.writer.u, s.writer.next, 0))
  }

  /** Some lcore holds a copy of the replica that is being modified. */
  ghost predicate TornLookup<U>(s: State<U>) {
    exists l: nat, t: nat :: HasCopy(s, l, t) && Modifies(s, t, s.readers[l].snap[t])
  }

  lemma {:induction false} NextAction<U>(s: State<U>, a: Action<U>, acts: seq<Action<U>>)
    requires Shaped(s) && Enabled(s, a) && Valid(Apply(s, a), acts)
    ensures Valid(s, [a] + acts) && After(s, [a] + acts) == After(Apply(s, a), acts)
  {
    hide Apply, Enabled, Shaped;
    assert ([a] + acts)[1..] == acts;
  }

  /** A writer that has come to replica `j` can go on to begin any later one but the new one, while the lcores do
      nothing. */
  lemma {:induction false} ComesTo<U>(s: State<U>, r: nat) returns (acts: seq<Action<U>>)
    requires Shaped(s) && s.writer.Finishing? && s.writer.j <= r < |s.tables[s.writer.tid].replicas|
             && r != s.writer.next
    ensures Valid(s, acts)
    ensures var s' := After(s, acts);
            s'.readers == s.readers && |s'.tables| == |s.tables| && Modifies(s', s.writer.tid, r)
    decreases r - s.writer.j
  {
    var w := s.writer;
    hide Valid, After, Modifies;
    if w.j == w.next {
      StepShape(s, SkipNew);
      acts := ComesTo(Apply(s, SkipNew), r);
      NextAction(s, SkipNew, acts);
      acts := [SkipNew] + acts;
    } else {
      StepShape(s, BeginOther);
      var s1 := Apply(s, BeginOther);
      if w.j == r {
        BeginsHere(s1, w.tid, r);
        NextAction(s, BeginOther, []);
        acts := [BeginOther] + [];
      } else {
        StepShape(s1, FinishOther);
        acts := ComesTo(Apply(s1, FinishOther), r);
        NextAction(s1, FinishOther, acts);
        acts := [FinishOther] + acts;
        NextAction(s, BeginOther, acts);
        acts := [BeginOther] + acts;
      }
    }
  }

  lemma {:induction false} BeginsHere<U>(s: State<U>, t: nat, r: nat)
    requires Shaped(s) && s.writer.WritingOther? && s.writer.tid == t && s.writer.j == r
    ensures Modifies(s, t, r) && Valid(s, []) && After(s, []) == s
  {
  }

  /** What the sleep is for: if it ended now, the writer could come to modify a replica that some lcore still
      uses if and only if some lcore holds a copy of an old replica. */
  lemma {:induction false} EarlyWakeTears<U>(s: State<U>)
    requires Inv(s) && s.writer.Sleeping?
    ensures (exists acts: seq<Action<U>> :: Valid(Woken(s), acts) && TornLookup(After(Woken(s), acts)))
            <==> (exists l: nat :: HasCopy(s, l, s.writer.tid) && s.readers[l].snap[s.writer.tid] != s.writer.next)
  {
    hide Inv, Valid, After, TornLookup;
    var w := s.writer;
    SleepLongEnough(s);
    if l: nat :| HasCopy(s, l, w.tid) && s.readers[l].snap[w.tid] != w.next {
      assert CopyOk(s, l, w.tid) by { InvCopies(s); }
      WokenShaped(s);
      var acts := ComesTo(Woken(s), s.readers[l].snap[w.tid]);
      TornAt(After(Woken(s), acts), l, w.tid);
    } else {
      forall acts: seq<Action<U>> | Valid(Woken(s), acts) ensures !TornLookup(After(Woken(s), acts)) {
        RunInv(Woken(s), acts);
        NoneTorn(After(Woken(s), acts));
      }
    }
  }

  lemma {:induction false} InvCopies<U>(s: State<U>)
    requires Inv(s)
    ensures Shaped(s) && CopiesOk(s)
  {
    hide Shaped, CopiesOk;
  }

  lemma {:induction false} WokenShaped<U>(s: State<U>)
    requires Inv(s) && s.writer.Sleeping?
    ensures Shaped(Woken(s))
  {
  }

  lemma {:induction false} TornAt<U>(s: State<U>, l: nat, t: nat)
    requires HasCopy(s, l, t) && Modifies(s, t, s.readers[l].snap[t])
    ensures TornLookup(s)
  {
  }

  lemma {:induction false} NoneTorn<U>(s: State<U>)
    requires Inv(s)
    ensures !TornLookup(s)
  {
    hide Modifies;
    forall l: nat, t: nat | HasCopy(s, l, t) ensures !Modifies(s, t, s.readers[l].snap[t]) {
      CopyIsStable(s, l, t);
    }
  }

  // ---------------------------------------------------------------- the outcome of a promote

  function NextReplica<U>(s: State<U>, tid: nat): nat
    requires Shaped(s) && tid < |s.tables|
  {
    (s.tables[tid].active + 1) % |s.tables[tid].replicas|
  }

  /** The tables after promoting `u` on table `tid`, as the control plane's code leaves them when nothing
      runs in between. */
  ghost predicate Promoted<U>(tables: seq<Table<U>>, pointers: seq<seq<nat>>, tid: nat, u: U,
                              tables': seq<Table<U>>, pointers': seq<seq<nat>>)
    requires tid < |tables|
    requires forall t | 0 <= t < |tables| :: |tables[t].replicas| > 0
    requires forall l | 0 <= l < |pointers| :: |pointers[l]| == |tables|
  {
    var next := (tables[tid].active + 1) % |tables[tid].replicas|;
    && |tables'| == |tables| && |pointers'| == |pointers|
    && (forall t | 0 <= t < |tables| && t != tid :: tables'[t] == tables[t])
    && |tables'[tid].replicas| == |tables[tid].replicas|
    && (forall r | 0 <= r < |tables[tid].replicas| :: tables'[tid].replicas[r] == Stable(tables[tid].replicas[r].us + [u]))
    && tables'[tid].active == (if |pointers| > 0 then next else tables[tid].active)
    && (forall l | 0 <= l < |pointers| :: pointers'[l] == pointers[l][tid := next])
  }

  /** `s` is a state of the promote of `u` on `tid` that started in `s0`, or one after it. */
  ghost predicate Promoting<U>(s0: State<U>, tid: nat, u: U, s: State<U>)
    requires Inv(s0) && tid < |s0.tables|
  {
    && SameShape(s0, s) && |s.log| == |s0.log|
    && s.log == s0.log[tid := s0.log[tid] + [u]]
    && (forall t | 0 <= t < |s.tables| && t != tid :: s.tables[t].active == s0.tables[t].active)
    && (|s.pointers| == 0 ==> s.tables[tid].active == s0.tables[tid].active)
    && (if s.writer.Resting? then |s.pointers| > 0 ==> s.tables[tid].active == NextReplica(s0, tid)
        else s.writer.tid == tid && s.writer.u == u && s.writer.next == NextReplica(s0, tid))
  }

  lemma {:induction false} StepPromoting<U>(s0: State<U>, tid: nat, u: U, s: State<U>, a: Action<U>)
    requires Inv(s0) && tid < |s0.tables| && Inv(s) && Promoting(s0, tid, u, s)
    requires Enabled(s, a) && !a.StartPromote?
    ensures Promoting(s0, tid, u, Apply(s, a))
  {
    hide ContentsOk, PointersOk, CopiesOk, Before;
    StepShape(s, a);
  }

  lemma {:induction false} RunPromoting<U>(s0: State<U>, tid: nat, u: U, s: State<U>, acts: seq<Action<U>>)
    requires Inv(s0) && tid < |s0.tables| && Inv(s) && Promoting(s0, tid, u, s)
    requires Valid(s, acts) && forall i | 0 <= i < |acts| :: !acts[i].StartPromote?
    ensures Inv(After(s, acts)) && Promoting(s0, tid, u, After(s, acts))
    decreases |acts|
  {
    if acts != [] {
      StepInv(s, acts[0]);
      StepPromoting(s0, tid, u, s, acts[0]);
      RunPromoting(s0, tid, u, Apply(s, acts[0]), acts[1..]);
    }
  }

  /** However the packets of the lcores are interleaved with it, a finished promote leaves tables and
      pointers exactly as the uninterrupted code does. */
  lemma {:induction false} PromoteOutcome<U>(s: State<U>, tid: nat, u: U, acts: seq<Action<U>>)
    requires Inv(s) && s.writer.Resting? && tid < |s.tables|
    requires Valid(s, [StartPromote(tid, u)] + acts)
    requires forall i | 0 <= i < |acts| :: !acts[i].StartPromote?
    requires After(s, [StartPromote(tid, u)] + acts).writer.Resting?
    ensures var s' := After(s, [StartPromote(tid, u)] + acts);
            Promoted(s.tables, s.pointers, tid, u, s'.tables, s'.pointers)
  {
    var a: Action<U> := StartPromote(tid, u);
    var s1 := Apply(s, a);
    assert ([a] + acts)[1..] == acts;
    StepInv(s, a);
    StepShape(s, a);
    RunPromoting(s, tid, u, s1, acts);
    var s' := After(s1, acts);
    forall t, r | 0 <= t < |s.tables| && 0 <= r < |s.tables[t].replicas|
      ensures s.tables[t].replicas[r] == Stable(s.log[t]) && s'.tables[t].replicas[r] == Stable(s'.log[t])
    {
      assert ContentOk(s, t, r) && ContentOk(s', t, r);
    }
    forall t | 0 <= t < |s.tables| && t != tid ensures s'.tables[t] == s.tables[t] {
      assert s'.tables[t].replicas == s.tables[t].replicas;
    }
    forall l | 0 <= l < |s.pointers| ensures s'.pointers[l] == s.pointers[l][tid := NextReplica(s, tid)] {
      forall t | 0 <= t < |s.tables| ensures s'.pointers[l][t] == s.pointers[l][tid := NextReplica(s, tid)][t] {
        assert PointerOk(s, l, t) && PointerOk(s', l, t);
      }
    }
  }

  // ---------------------------------------------------------------- the code of the control plane

  /** The table state of one socket and the table pointers of its lcores. */
  class Socket<U> {
    const nbTables: nat
    const nbReplica: nat
    const lcores: nat
    const tables: array2<seq<U>>        // tables[table, replica], the updates applied to the replica
    const activeReplica: array<nat>
    const lcoreTables: array2<nat>      // lcoreTables[lcore, table], a replica number

    ghost predicate Valid()
      reads this
    {
      && nbReplica >= 2
      && tables.Length0 == nbTables && tables.Length1 == nbReplica
      && activeReplica.Length == nbTables
      && lcoreTables.Length0 == lcores && lcoreTables.Length1 == nbTables
      && (lcoreTables as object) != activeReplica && (tables as object) != activeReplica && (tables as object) != lcoreTables
    }

    ghost predicate ActiveInRange()
      reads this, activeReplica
      requires Valid()
    {
      forall t | 0 <= t < nbTables :: activeReplica[t] < nbReplica
    }

    ghost function TableOf(t: nat): Table<U>
      reads this, tables, activeReplica
      requires Valid() && t < nbTables
    {
      Table(seq(nbReplica, r requires 0 <= r < nbReplica reads this, tables requires Valid() => Stable(tables[t, r])), activeReplica[t])
    }

    ghost function Tables(): seq<Table<U>>
      reads this, tables, activeReplica
      requires Valid()
    {
      seq(nbTables, t requires 0 <= t < nbTables && Valid() reads this, tables, activeReplica => TableOf(t))
    }

    ghost function PointersOf(l: nat): seq<nat>
      reads this, lcoreTables
      requires Valid() && l < lcores
    {
      seq(nbTables, t requires 0 <= t < nbTables && Valid() reads this, lcoreTables => lcoreTables[l, t])
    }

    ghost function Pointers(): seq<seq<nat>>
      reads this, lcoreTables
      requires Valid()
    {
      seq(lcores, l requires 0 <= l < lcores && Valid() reads this, lcoreTables => PointersOf(l))
    }

    /** Tables of a socket and of its lcores, all empty and all lcores on replica 0. */
    constructor CreateTables(nbTables: nat, nbReplica: nat, lcores: nat)
      requires nbReplica >= 2
      ensures Valid() && ActiveInRange() && fresh(tables) && fresh(activeReplica) && fresh(lcoreTables)
      ensures Tables() == Init<U>(nbTables, nbReplica, lcores).tables
      ensures Pointers() == Init<U>(nbTables, nbReplica, lcores).pointers
    {
      this.nbTables, this.nbReplica, this.lcores := nbTables, nbReplica, lcores;
      tables := new seq<U>[nbTables, nbReplica];
      activeReplica := new nat[nbTables];
      lcoreTables := new nat[lcores, nbTables];
      new;
      var i := 0;
      while i < nbTables
        invariant i <= nbTables
        invariant forall t, r | 0 <= t < i && 0 <= r < nbReplica :: tables[t, r] == []
        invariant forall t | 0 <= t < i :: activeReplica[t] == 0
      {
        var j := 0;
        while j < nbReplica
          invariant j <= nbReplica
          invariant forall t, r | 0 <= t < nbTables && 0 <= r < nbReplica && (t < i || (t == i && r < j)) :: tables[t, r] == []
          modifies tables
        {
          tables[i, j] := [];
          j := j + 1;
        }
        activeReplica[i] := 0;
        i := i + 1;
      }
      var lcore := 0;
      while lcore < lcores
        invariant lcore <= lcores
        invariant forall l, t | 0 <= l < lcore && 0 <= t < nbTables :: lcoreTables[l, t] == 0
        modifies lcoreTables
      {
        i := 0;
        while i < nbTables
          invariant i <= nbTables
          invariant forall l, t | 0 <= l < lcores && 0 <= t < nbTables && (l < lcore || (l == lcore && t < i)) :: lcoreTables[l, t] == 0
        {
          lcoreTables[lcore, i] := 0;
          i := i + 1;
        }
        lcore := lcore + 1;
      }
      assert forall t | 0 <= t < nbTables :: Tables()[t].replicas == Init<U>(nbTables, nbReplica, lcores).tables[t].replicas;
      assert forall l | 0 <= l < lcores :: Pointers()[l] == Init<U>(nbTables, nbReplica, lcores).pointers[l];
    }

    /** Points the lcores at replica `replica` of table `tid`, one after the other. */
    method ChangeReplica(tid: nat, replica: nat)
      requires Valid() && tid < nbTables && replica < nbReplica
      modifies lcoreTables, activeReplica
      ensures forall l, t | 0 <= l < lcores && 0 <= t < nbTables ::
                lcoreTables[l, t] == if t == tid then replica else old(lcoreTables[l, t])
      ensures forall t | 0 <= t < nbTables ::
                activeReplica[t] == if t == tid && lcores > 0 then replica else old(activeReplica[t])
    {
      var lcore := 0;
      while lcore < lcores
        invariant lcore <= lcores
        invariant forall l, t | 0 <= l < lcores && 0 <= t < nbTables ::
                    lcoreTables[l, t] == if t == tid && l < lcore then replica else old(lcoreTables[l, t])
        invariant forall t | 0 <= t < nbTables ::
                    activeReplica[t] == if t == tid && lcore > 0 then replica else old(activeReplica[t])
      {
        lcoreTables[lcore, tid] := replica;
        activeReplica[tid] := replica;
        lcore := lcore + 1;
      }
    }

    /** Applies the update `u` to every replica of table `tid`, the spare first. */
    method ChangeTable(tid: nat, u: U)
      requires Valid() && ActiveInRange() && tid < nbTables
      modifies tables, lcoreTables, activeReplica
      ensures Valid() && ActiveInRange()
      ensures Promoted(old(Tables()), old(Pointers()), tid, u, Tables(), Pointers())
    {
      var current := activeReplica[tid];
      var next := (current + 1) % nbReplica;
      tables[tid, next] := tables[tid, next] + [u];
      ChangeReplica(tid, next);
      var r := 0;
      while r < nbReplica
        invariant r <= nbReplica
        invariant forall t, k | 0 <= t < nbTables && 0 <= k < nbReplica ::
                    tables[t, k] == if t == tid && (k == next || k < r) then old(tables[t, k]) + [u] else old(tables[t, k])
        invariant forall l, t | 0 <= l < lcores && 0 <= t < nbTables ::
                    lcoreTables[l, t] == if t == tid then next else old(lcoreTables[l, t])
        invariant forall t | 0 <= t < nbTables ::
                    activeReplica[t] == if t == tid && lcores > 0 then next else old(activeReplica[t])
      {
        if r != next {
          tables[tid, r] := tables[tid, r] + [u];
        }
        r := r + 1;
      }
      forall t | 0 <= t < nbTables && t != tid ensures Tables()[t] == old(Tables())[t] {
        assert Tables()[t].replicas == old(Tables())[t].replicas;
      }
      assert forall l | 0 <= l < lcores :: Pointers()[l] == old(Pointers())[l][tid := next];
    }
  }
}
