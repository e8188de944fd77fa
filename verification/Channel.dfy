/** The control-plane channel as a whole: threads that pass message cells from a fixed pool through the two
    queues.

    A cell is touched by the reading thread or by an lcore composing a digest, filled, and put on the input
    or the output queue; the processing thread takes it, works on it and gives it back. A reading error or a
    digest with too long a name leaves a cell touched for ever. A run is any sequence of enabled actions. */
module Channel {
  import opened Options
  import opened Sequences
  import opened Fifo

  /** A cell that is `Read` or `Composed` has been filled since it was touched. */
  datatype Place = Free | Reading | Read | Composing | Composed | InInput | Handling | InOutput | Sending | Lost

  datatype State<M> = State(
    free: seq<nat>,           // the list of unused cells
    place: seq<Place>,        // who has each cell
    data: seq<M>,             // what is in each cell
    input: seq<nat>,
    output: seq<nat>,
    addedIn: seq<M>,          // all messages that were put on, or taken from, the queues
    takenIn: seq<M>,
    addedOut: seq<M>,
    takenOut: seq<M>)

  datatype Action<M> =
    | TouchForReading | TouchForDigest
    | Fill(c: nat, m: M)
    | Abandon(c: nat)
    | AddInput(c: nat) | AddOutput(c: nat)
    | RemoveInput | RemoveOutput
    | Detouch(c: nat)

  predicate At<M>(s: State<M>, c: nat, p: Place) {
    c < |s.place| && s.place[c] == p
  }

  predicate Shaped<M>(s: State<M>) {
    && |s.data| == |s.place|
    && (forall i | 0 <= i < |s.free| :: s.free[i] < |s.place|)
    && (forall i | 0 <= i < |s.input| :: s.input[i] < |s.place|)
    && (forall i | 0 <= i < |s.output| :: s.output[i] < |s.place|)
  }

  /** Where a cell is after it has been written; none if it may not be written where it is. */
  function Filled(p: Place): Option<Place> {
    match p
    case Reading => Some(Read)
    case Composing => Some(Composed)
    case Composed | Handling | Sending => Some(p)
    case _ => None
  }

  predicate Enabled<M>(s: State<M>, a: Action<M>)
    requires Shaped(s)
  {
    match a
    case TouchForReading => s.free != []
    case TouchForDigest => s.free != []
    case Fill(c, m) => c < |s.place| && Filled(s.place[c]).Some?
    case Abandon(c) => At(s, c, Reading) || At(s, c, Composing) || At(s, c, Composed)
    case AddInput(c) => At(s, c, Read)
    case AddOutput(c) => At(s, c, Composed)
    case RemoveInput => s.input != []
    case RemoveOutput => s.output != []
    case Detouch(c) => At(s, c, Handling) || At(s, c, Sending)
  }

  function Move<M>(s: State<M>, c: nat, p: Place): State<M>
    requires c < |s.place|
  {
    s.(place := s.place[c := p])
  }

  function Apply<M>(s: State<M>, a: Action<M>): State<M>
    requires Shaped(s) && Enabled(s, a)
  {
    match a
    case TouchForReading => Move(s, s.free[0], Reading).(free := s.free[1..])
    case TouchForDigest => Move(s, s.free[0], Composing).(free := s.free[1..])
    case Fill(c, m) => Move(s, c, Filled(s.place[c]).value).(data := s.data[c := m])
    case Abandon(c) => Move(s, c, Lost)
    case AddInput(c) =>
      Move(s, c, if |s.input| < QUEUE_SIZE then InInput else Lost)
        .(input := Added(s.input, c), addedIn := s.addedIn + [s.data[c]])
    case AddOutput(c) =>
      Move(s, c, if |s.output| < QUEUE_SIZE then InOutput else Lost)
        .(output := Added(s.output, c), addedOut := s.addedOut + [s.data[c]])
    case RemoveInput =>
      Move(s, s.input[0], Handling).(input := Removed(s.input), takenIn := s.takenIn + [s.data[s.input[0]]])
    case RemoveOutput =>
      Move(s, s.output[0], Sending).(output := Removed(s.output), takenOut := s.takenOut + [s.data[s.output[0]]])
    case Detouch(c) => Move(s, c, Free).(free := [c] + s.free)
  }

  /** A fresh channel with `n` cells; the list of unused cells starts with the last one made. */
  function Init<M>(n: nat, m: M): State<M> {
    State(seq(n, i requires 0 <= i < n => n - 1 - i), seq(n, _ => Free), seq(n, _ => m), [], [], [], [], [], [])
  }

  // ---------------------------------------------------------------- runs

  ghost predicate Possible<M>(s: State<M>, actions: seq<Action<M>>)
    decreases |actions|
  {
    Shaped(s) && (actions != [] ==> Enabled(s, actions[0]) && Possible(Apply(s, actions[0]), actions[1..]))
  }

  ghost function After<M>(s: State<M>, actions: seq<Action<M>>): State<M>
    requires Possible(s, actions)
    decreases |actions|
  {
    if actions == [] then s else After(Apply(s, actions[0]), actions[1..])
  }

  // ---------------------------------------------------------------- the invariant

  /** All cells of `q` are at place `p`, and none is in it twice. */
  ghost predicate Holds<M>(s: State<M>, q: seq<nat>, p: Place) {
    Distinct(q) && forall i | 0 <= i < |q| :: At(s, q[i], p)
  }

  function Messages<M>(data: seq<M>, q: seq<nat>): (r: seq<M>)
    requires forall i | 0 <= i < |q| :: q[i] < |data|
    ensures |r| == |q|
  {
    seq(|q|, i requires 0 <= i < |q| => data[q[i]])
  }

  /** Lists and queues hold distinct cells of their own, and what was put on a queue is what was taken from
      it followed by what is still in it. */
  ghost predicate Inv<M>(s: State<M>) {
    && Shaped(s)
    && Holds(s, s.free, Free) && Holds(s, s.input, InInput) && Holds(s, s.output, InOutput)
    && s.addedIn == s.takenIn + Messages(s.data, s.input)
    && s.addedOut == s.takenOut + Messages(s.data, s.output)
  }

  lemma {:induction false} InitInv<M>(n: nat, m: M)
    ensures Inv(Init(n, m)) && |Init(n, m).place| == n
  {
  }

  function Below(n: nat): (r: set<nat>)
    ensures forall i: nat :: i in r <==> i < n
    ensures |r| == n
  {
    if n == 0 then {} else Below(n - 1) + {n - 1}
  }

  lemma {:induction false} AtMost(q: seq<nat>, n: nat)
    requires Distinct(q) && forall i | 0 <= i < |q| :: q[i] < n
    ensures |q| <= n
  {
    CountDistinct(q);
    assert Elements(q) <= Below(n);
    SubsetCount(Elements(q), Below(n));
  }

  lemma {:induction false} SubsetCount(a: set<nat>, b: set<nat>)
    requires a <= b
    ensures |a| <= |b|
  {
    assert b == a + (b - a);
  }

  /** A queue of cells cannot be full while its next element is still outside, if the pool is no larger than
      the queue. */
  lemma {:induction false} RoomLeft<M>(s: State<M>, q: seq<nat>, p: Place, c: nat)
    requires Holds(s, q, p) && c < |s.place| && s.place[c] != p && |s.place| <= QUEUE_SIZE
    ensures |q| < QUEUE_SIZE
  {
    var all := q + [c];
    forall i | 0 <= i < |q| ensures q[i] != c && all[i] < |s.place| {
      assert At(s, q[i], p);
    }
    AtMost(all, |s.place|);
  }

  /** Moving or filling a cell outside a queue changes nothing about the queue. */
  lemma {:induction false} QueueKept<M>(s: State<M>, s': State<M>, q: seq<nat>, p: Place, c: nat)
    requires Shaped(s) && Holds(s, q, p) && !At(s, c, p)
    requires |s'.place| == |s.place| && |s'.data| == |s.data|
    requires forall d | 0 <= d < |s.place| && d != c :: s'.place[d] == s.place[d] && s'.data[d] == s.data[d]
    ensures Holds(s', q, p) && Messages(s'.data, q) == Messages(s.data, q)
  {
    forall i | 0 <= i < |q| ensures At(s', q[i], p) && s'.data[q[i]] == s.data[q[i]] {
      assert At(s, q[i], p);
    }
  }

  /** The cell an action moves or fills. */
  function Cell<M>(s: State<M>, a: Action<M>): (c: nat)
    requires Shaped(s) && Enabled(s, a)
    ensures c < |s.place|
  {
    match a
    case TouchForReading => s.free[0]
    case TouchForDigest => s.free[0]
    case Fill(c, _) => c
    case Abandon(c) => c
    case AddInput(c) => c
    case AddOutput(c) => c
    case RemoveInput => s.input[0]
    case RemoveOutput => s.output[0]
    case Detouch(c) => c
  }

  lemma {:induction false} StepShape<M>(s: State<M>, a: Action<M>)
    requires Shaped(s) && Enabled(s, a)
    ensures Shaped(Apply(s, a)) && |Apply(s, a).place| == |s.place|
    ensures forall d | 0 <= d < |s.place| && d != Cell(s, a) ::
              Apply(s, a).place[d] == s.place[d] && Apply(s, a).data[d] == s.data[d]
  {
  }

  /** What a step does to one of the lists: it stays, loses its first element or gets a new last one. */
  lemma {:induction false} InputStep<M>(s: State<M>, a: Action<M>)
    requires Inv(s) && Enabled(s, a) && |s.place| <= QUEUE_SIZE && Shaped(Apply(s, a))
    requires forall d | 0 <= d < |s.place| && d != Cell(s, a) ::
               Apply(s, a).place[d] == s.place[d] && Apply(s, a).data[d] == s.data[d]
    ensures var s' := Apply(s, a);
            Holds(s', s'.input, InInput) && s'.addedIn == s'.takenIn + Messages(s'.data, s'.input)
  {
    hide Distinct;
    var s' := Apply(s, a);
    var c := Cell(s, a);
    match a {
      case AddInput(_) =>
        RoomLeft(s, s.input, InInput, c);
        QueueKept(s, s', s.input, InInput, c);
        AppendHolds(s', s.input, InInput, c);
      case RemoveInput =>
        TailHolds(s, s', s.input, InInput);
      case _ =>
        NotQueued(s, a);
        QueueKept(s, s', s.input, InInput, c);
    }
  }

  lemma {:induction false} NotQueued<M>(s: State<M>, a: Action<M>)
    requires Inv(s) && Enabled(s, a)
    ensures !a.RemoveInput? ==> !At(s, Cell(s, a), InInput)
    ensures !a.RemoveOutput? ==> !At(s, Cell(s, a), InOutput)
    ensures !a.TouchForReading? && !a.TouchForDigest? ==> !At(s, Cell(s, a), Free)
  {
    if a.TouchForReading? || a.TouchForDigest? {
      assert At(s, s.free[0], Free);
    } else if a.RemoveInput? {
      assert At(s, s.input[0], InInput);
    } else if a.RemoveOutput? {
      assert At(s, s.output[0], InOutput);
    }
  }

  lemma {:induction false} AppendHolds<M>(s: State<M>, q: seq<nat>, p: Place, c: nat)
    requires Holds(s, q, p) && At(s, c, p) && |s.data| == |s.place|
    requires forall i | 0 <= i < |q| :: q[i] != c
    ensures Holds(s, q + [c], p) && Messages(s.data, q + [c]) == Messages(s.data, q) + [s.data[c]]
  {
    var q' := q + [c];
    forall i | 0 <= i < |q'| ensures At(s, q'[i], p) {
      assert i < |q| ==> At(s, q[i], p);
    }
  }

  lemma {:induction false} TailHolds<M>(s: State<M>, s': State<M>, q: seq<nat>, p: Place)
    requires Shaped(s) && Holds(s, q, p) && q != []
    requires |s'.place| == |s.place| && |s'.data| == |s.data|
    requires forall d | 0 <= d < |s.place| && d != q[0] :: s'.place[d] == s.place[d] && s'.data[d] == s.data[d]
    ensures Holds(s', q[1..], p) && Messages(s.data, q) == [s.data[q[0]]] + Messages(s'.data, q[1..])
  {
    var t := q[1..];
    forall i | 0 <= i < |t| ensures At(s', t[i], p) && s'.data[t[i]] == s.data[t[i]] {
      assert At(s, q[i + 1], p);
    }
  }

  lemma {:induction false} OutputStep<M>(s: State<M>, a: Action<M>)
    requires Inv(s) && Enabled(s, a) && |s.place| <= QUEUE_SIZE && Shaped(Apply(s, a))
    requires forall d | 0 <= d < |s.place| && d != Cell(s, a) ::
               Apply(s, a).place[d] == s.place[d] && Apply(s, a).data[d] == s.data[d]
    ensures var s' := Apply(s, a);
            Holds(s', s'.output, InOutput) && s'.addedOut == s'.takenOut + Messages(s'.data, s'.output)
  {
    hide Distinct;
    var s' := Apply(s, a);
    var c := Cell(s, a);
    match a {
      case AddOutput(_) =>
        RoomLeft(s, s.output, InOutput, c);
        QueueKept(s, s', s.output, InOutput, c);
        AppendHolds(s', s.output, InOutput, c);
      case RemoveOutput =>
        TailHolds(s, s', s.output, InOutput);
      case _ =>
        NotQueued(s, a);
        QueueKept(s, s', s.output, InOutput, c);
    }
  }

  lemma {:induction false} FreeStep<M>(s: State<M>, a: Action<M>)
    requires Inv(s) && Enabled(s, a) && Shaped(Apply(s, a))
    requires forall d | 0 <= d < |s.place| && d != Cell(s, a) ::
               Apply(s, a).place[d] == s.place[d] && Apply(s, a).data[d] == s.data[d]
    ensures Holds(Apply(s, a), Apply(s, a).free, Free)
  {
    var s' := Apply(s, a);
    var c := Cell(s, a);
    match a {
      case TouchForReading =>
        TailHolds(s, s', s.free, Free);
      case TouchForDigest =>
        TailHolds(s, s', s.free, Free);
      case Detouch(_) =>
        QueueKept(s, s', s.free, Free, c);
        forall i | 0 <= i < |s'.free| ensures At(s', s'.free[i], Free) {
          assert i > 0 ==> At(s', s.free[i - 1], Free);
        }
        forall i | 0 <= i < |s.free| ensures s.free[i] != c {
          assert At(s, s.free[i], Free);
        }
      case _ =>
        NotQueued(s, a);
        QueueKept(s, s', s.free, Free, c);
    }
  }

  lemma {:induction false} StepInv<M>(s: State<M>, a: Action<M>)
    requires Inv(s) && Enabled(s, a) && |s.place| <= QUEUE_SIZE
    ensures Inv(Apply(s, a)) && |Apply(s, a).place| == |s.place|
  {
    hide Apply, Enabled, Holds, Messages, Cell;
    StepShape(s, a);
    InputStep(s, a);
    OutputStep(s, a);
    FreeStep(s, a);
  }

  lemma {:induction false} RunInv<M>(s: State<M>, actions: seq<Action<M>>)
    requires Inv(s) && |s.place| <= QUEUE_SIZE && Possible(s, actions)
    ensures Inv(After(s, actions)) && |After(s, actions).place| == |s.place|
    decreases |actions|
  {
    hide Inv, Apply, Enabled;
    if actions != [] {
      StepInv(s, actions[0]);
      RunInv(Apply(s, actions[0]), actions[1..]);
    }
  }

  // ---------------------------------------------------------------- what the channel is for

  /** With a pool no larger than a queue, whatever the threads do: an element that is about to be added finds
      room, so nothing is ever discarded, and the messages taken from each queue are the first of those added
      to it, in order. */
  lemma {:induction false} NothingIsLost<M>(n: nat, m: M, actions: seq<Action<M>>)
    requires n <= QUEUE_SIZE && Possible(Init(n, m), actions)
    ensures var s := After(Init(n, m), actions);
            && (forall c | At(s, c, Read) :: |s.input| < QUEUE_SIZE)
            && (forall c | At(s, c, Composed) :: |s.output| < QUEUE_SIZE)
            && s.takenIn <= s.addedIn && |s.addedIn| == |s.takenIn| + |s.input|
            && s.takenOut <= s.addedOut && |s.addedOut| == |s.takenOut| + |s.output|
  {
    InitInv(n, m);
    RunInv(Init(n, m), actions);
    var s := After(Init(n, m), actions);
    forall c | At(s, c, Read) ensures |s.input| < QUEUE_SIZE {
      RoomLeft(s, s.input, InInput, c);
    }
    forall c | At(s, c, Composed) ensures |s.output| < QUEUE_SIZE {
      RoomLeft(s, s.output, InOutput, c);
    }
  }

  /** With 1000 cells neither queue of 1024 slots is ever full when an element is to be added. */
  lemma {:induction false} ThousandCells<M>(m: M, actions: seq<Action<M>>)
    requires Possible(Init(1000, m), actions)
    ensures var s := After(Init(1000, m), actions);
            && (forall c | At(s, c, Read) :: |s.input| < 1024)
            && (forall c | At(s, c, Composed) :: |s.output| < 1024)
  {
    NothingIsLost(1000, m, actions);
  }

  /** The two ways through the channel: from the reading thread, and from the lcores that compose digests. */
  datatype Way = Incoming | Outgoing {
    function Queue<M>(s: State<M>): seq<nat> { if Incoming? then s.input else s.output }

    function Added<M>(s: State<M>): seq<M> { if Incoming? then s.addedIn else s.addedOut }

    function Taken<M>(s: State<M>): seq<M> { if Incoming? then s.takenIn else s.takenOut }

    /** Where a cell is that is about to be put on the queue. */
    function Before(): Place { if Incoming? then Read else Composed }

    function Touch<M>(): Action<M> { if Incoming? then TouchForReading else TouchForDigest }

    function Add<M>(c: nat): Action<M> { if Incoming? then AddInput(c) else AddOutput(c) }

    function Remove<M>(): Action<M> { if Incoming? then RemoveInput else RemoveOutput }
  }

  // ---------------------------------------------------------------- what is taken is what was written

  /** The message last written to each cell since it was touched, after one more action. */
  function Note<M>(notes: map<nat, M>, s: State<M>, a: Action<M>): map<nat, M>
    requires Shaped(s) && Enabled(s, a)
  {
    match a
    case TouchForReading => notes - {s.free[0]}
    case TouchForDigest => notes - {s.free[0]}
    case Fill(c, m) => notes[c := m]
    case _ => notes
  }

  /** What one action puts on the queue, as it was last written. */
  function Puts<M>(w: Way, a: Action<M>, notes: map<nat, M>): seq<M> {
    match a
    case AddInput(c) => if w.Incoming? && c in notes then [notes[c]] else []
    case AddOutput(c) => if w.Outgoing? && c in notes then [notes[c]] else []
    case _ => []
  }

  /** The messages put on the queue by a run, as they were last written. */
  ghost function Written<M>(w: Way, s: State<M>, actions: seq<Action<M>>, notes: map<nat, M>): seq<M>
    requires Possible(s, actions)
    decreases |actions|
  {
    if actions == [] then []
    else
      var a := actions[0];
      Puts(w, a, notes) + Written(w, Apply(s, a), actions[1..], Note(notes, s, a))
  }

  /** Every cell on its way to a queue has been written since it was touched, and holds what was written. */
  ghost predicate Noted<M>(s: State<M>, notes: map<nat, M>) {
    && |s.data| == |s.place|
    && forall c: nat | c < |s.place| && (s.place[c].Read? || s.place[c].Composed?) :: c in notes && s.data[c] == notes[c]
  }

  lemma {:induction false} StepNoted<M>(w: Way, s: State<M>, a: Action<M>, notes: map<nat, M>)
    requires Shaped(s) && Enabled(s, a) && Noted(s, notes)
    ensures Shaped(Apply(s, a)) && Noted(Apply(s, a), Note(notes, s, a))
    ensures w.Added(Apply(s, a)) == w.Added(s) + Puts(w, a, notes)
  {
    StepShape(s, a);
    assert w.Added(s) + [] == w.Added(s);
  }

  lemma {:induction false} RunWrites<M>(w: Way, s: State<M>, actions: seq<Action<M>>, notes: map<nat, M>)
    requires Possible(s, actions) && Noted(s, notes)
    ensures w.Added(After(s, actions)) == w.Added(s) + Written(w, s, actions, notes)
    decreases |actions|
  {
    hide Apply, Enabled, Shaped, Noted, Way.Added, Note, Puts;
    if actions != [] {
      var a := actions[0];
      StepNoted(w, s, a, notes);
      RunWrites(w, Apply(s, a), actions[1..], Note(notes, s, a));
    }
  }

  lemma {:induction false} InitNoted<M>(n: nat, m: M)
    ensures Noted(Init(n, m), map[])
  {
  }

  /** What was read into a cell is what the processing thread finds there, not what the cell held before. */
  lemma {:induction false} OneMessage<M>(a: M, b: M)
    ensures var acts: seq<Action<M>> := [TouchForReading, Fill(0, b), AddInput(0), RemoveInput];
            Possible(Init(1, a), acts) && After(Init(1, a), acts).takenIn == [b]
  {
    hide Possible, After;
    var s0 := Init(1, a);
    var s1 := Apply(s0, TouchForReading);
    var s2 := Apply(s1, Fill(0, b));
    var s3 := Apply(s2, AddInput(0));
    NoAction(Apply(s3, RemoveInput));
    NextAction(s3, RemoveInput, []);
    NextAction(s2, AddInput(0), [RemoveInput] + []);
    NextAction(s1, Fill(0, b), [AddInput(0)] + ([RemoveInput] + []));
    NextAction(s0, TouchForReading, [Fill(0, b)] + ([AddInput(0)] + ([RemoveInput] + [])));
    assert [TouchForReading] + ([Fill(0, b)] + ([AddInput(0)] + ([RemoveInput] + [])))
        == [TouchForReading, Fill(0, b), AddInput(0), RemoveInput];
  }

  /** Whatever the threads do, the messages put on a queue are those last written to their cells, and those taken
      from it are the first of these, in order. */
  lemma {:induction false} TakenIsWritten<M>(w: Way, n: nat, m: M, actions: seq<Action<M>>)
    requires n <= QUEUE_SIZE && Possible(Init(n, m), actions)
    ensures var s := After(Init(n, m), actions);
            var written := Written(w, Init(n, m), actions, map[]);
            w.Added(s) == written && w.Taken(s) <= written && |written| == |w.Taken(s)| + |w.Queue(s)|
  {
    NothingIsLost(n, m, actions);
    InitNoted(n, m);
    RunWrites(w, Init(n, m), actions, map[]);
  }

  // ---------------------------------------------------------------- when messages are discarded

  /** A run of a channel with `n` cells that comes to a full queue with one more cell to add. */
  ghost predicate CanDiscard<M>(w: Way, n: nat, m: M, actions: seq<Action<M>>) {
    Possible(Init(n, m), actions) &&
    var s := After(Init(n, m), actions);
    |w.Queue(s)| == QUEUE_SIZE && exists c :: At(s, c, w.Before())
  }

  lemma {:induction false} NextAction<M>(s: State<M>, a: Action<M>, actions: seq<Action<M>>)
    requires Shaped(s) && Enabled(s, a) && Possible(Apply(s, a), actions)
    ensures Possible(s, [a] + actions) && After(s, [a] + actions) == After(Apply(s, a), actions)
  {
    hide Apply, Enabled, Shaped;
    assert ([a] + actions)[1..] == actions;
  }

  lemma {:induction false} NoAction<M>(s: State<M>)
    requires Shaped(s)
    ensures Possible(s, []) && After(s, []) == s
  {
  }

  /** Touching a cell and writing into it. */
  lemma {:induction false} TouchAndFill<M>(w: Way, s: State<M>, m: M) returns (actions: seq<Action<M>>)
    requires Shaped(s) && s.free != []
    ensures Possible(s, actions) && forall i | 0 <= i < |actions| :: actions[i] != Detouch(s.free[0])
    ensures var s' := After(s, actions);
            && Shaped(s') && At(s', s.free[0], w.Before()) && s'.data[s.free[0]] == m && s'.free == s.free[1..]
            && s'.input == s.input && s'.output == s.output && |s'.place| == |s.place|
            && s'.addedIn == s.addedIn && s'.addedOut == s.addedOut
  {
    hide Possible, After;
    var c := s.free[0];
    StepShape(s, w.Touch());
    var s1 := Apply(s, w.Touch());
    StepShape(s1, Fill(c, m));
    var s2 := Apply(s1, Fill(c, m));
    NoAction(s2);
    NextAction(s1, Fill(c, m), []);
    NextAction(s, w.Touch(), [Fill(c, m)] + []);
    actions := [w.Touch()] + ([Fill(c, m)] + []);
  }

  lemma {:induction false} Chain<M>(s: State<M>, actions: seq<Action<M>>, more: seq<Action<M>>)
    requires Possible(s, actions) && Possible(After(s, actions), more)
    ensures Possible(s, actions + more) && After(s, actions + more) == After(After(s, actions), more)
    decreases |actions|
  {
    hide Apply, Enabled, Shaped;
    if actions == [] {
      assert actions + more == more;
    } else {
      Chain(Apply(s, actions[0]), actions[1..], more);
      NextAction(s, actions[0], actions[1..] + more);
      assert [actions[0]] + (actions[1..] + more) == actions + more;
    }
  }

  lemma {:induction false} AddStep<M>(w: Way, s: State<M>, c: nat)
    requires Shaped(s) && At(s, c, w.Before()) && |w.Queue(s)| < QUEUE_SIZE
    ensures Enabled(s, w.Add(c))
    ensures var s' := Apply(s, w.Add(c));
            && Shaped(s') && s'.free == s.free && w.Queue(s') == w.Queue(s) + [c]
            && w.Added(s') == w.Added(s) + [s.data[c]]
  {
  }

  /** Adding `k` messages while nobody takes any, then writing into one more cell. */
  lemma {:induction false} Flood<M>(w: Way, s: State<M>, k: nat, m: M) returns (actions: seq<Action<M>>)
    requires Shaped(s) && |s.free| > k && |w.Queue(s)| + k == QUEUE_SIZE
    ensures Possible(s, actions)
    ensures |w.Queue(After(s, actions))| == QUEUE_SIZE && exists c :: At(After(s, actions), c, w.Before())
    decreases k
  {
    hide Apply, Enabled, Shaped, At, Way.Before, Way.Touch, Way.Add, Possible, After;
    var c := s.free[0];
    var first := TouchAndFill(w, s, m);
    var s1 := After(s, first);
    if k == 0 {
      actions := first;
    } else {
      AddStep(w, s1, c);
      var s2 := Apply(s1, w.Add(c));
      var rest := Flood(w, s2, k - 1, m);
      NextAction(s1, w.Add(c), rest);
      Chain(s, first, [w.Add(c)] + rest);
      actions := first + ([w.Add(c)] + rest);
    }
  }

  /** The full branch of either queue can be reached if and only if the pool has more cells than the queue has
      slots. */
  lemma {:induction false} DiscardsExactly<M>(w: Way, n: nat, m: M)
    ensures (exists actions: seq<Action<M>> :: CanDiscard(w, n, m, actions)) <==> n > QUEUE_SIZE
  {
    if n > QUEUE_SIZE {
      InitInv(n, m);
      var actions := Flood(w, Init(n, m), QUEUE_SIZE, m);
      assert CanDiscard(w, n, m, actions);
    } else {
      forall actions: seq<Action<M>> ensures !CanDiscard(w, n, m, actions) {
        if CanDiscard(w, n, m, actions) {
          NothingIsLost(n, m, actions);
          assert false;
        }
      }
    }
  }

  // ---------------------------------------------------------------- nothing gets stuck

  /** No cell is mislaid: what is free is in the list, and what is queued in its queue. */
  ghost predicate Kept<M>(s: State<M>) {
    forall c: nat | c < |s.place| ::
      && (s.place[c].Free? ==> c in s.free)
      && (s.place[c].InInput? ==> c in s.input)
      && (s.place[c].InOutput? ==> c in s.output)
  }

  lemma {:induction false} TailHas(q: seq<nat>, c: nat)
    requires c in q && q != [] && c != q[0]
    ensures c in q[1..]
  {
    var i :| 0 <= i < |q| && q[i] == c;
    assert q[1..][i - 1] == c;
  }

  lemma {:induction false} CellKept<M>(s: State<M>, a: Action<M>, c: nat)
    requires Inv(s) && Enabled(s, a) && |s.place| <= QUEUE_SIZE && c < |s.place| == |Apply(s, a).place|
    requires s.place[c].Free? ==> c in s.free
    requires s.place[c].InInput? ==> c in s.input
    requires s.place[c].InOutput? ==> c in s.output
    requires a.AddInput? ==> |s.input| < QUEUE_SIZE
    requires a.AddOutput? ==> |s.output| < QUEUE_SIZE
    ensures var s' := Apply(s, a);
            && (s'.place[c].Free? ==> c in s'.free)
            && (s'.place[c].InInput? ==> c in s'.input)
            && (s'.place[c].InOutput? ==> c in s'.output)
  {
    hide Distinct, Holds, Inv;
    if c in s.free && c != s.free[0] { TailHas(s.free, c); }
    if c in s.input && c != s.input[0] { TailHas(s.input, c); }
    if c in s.output && c != s.output[0] { TailHas(s.output, c); }
  }

  lemma {:induction false} StepKept<M>(s: State<M>, a: Action<M>)
    requires Inv(s) && Kept(s) && Enabled(s, a) && |s.place| <= QUEUE_SIZE
    ensures Kept(Apply(s, a))
  {
    StepShape(s, a);
    if a.AddInput? { RoomLeft(s, s.input, InInput, Cell(s, a)); }
    if a.AddOutput? { RoomLeft(s, s.output, InOutput, Cell(s, a)); }
    hide Inv, Apply, Enabled;
    forall c: nat | c < |s.place|
      ensures Apply(s, a).place[c].Free? ==> c in Apply(s, a).free
      ensures Apply(s, a).place[c].InInput? ==> c in Apply(s, a).input
      ensures Apply(s, a).place[c].InOutput? ==> c in Apply(s, a).output
    {
      CellKept(s, a, c);
    }
  }

  lemma {:induction false} RunKept<M>(s: State<M>, actions: seq<Action<M>>)
    requires Inv(s) && Kept(s) && |s.place| <= QUEUE_SIZE && Possible(s, actions)
    ensures Inv(After(s, actions)) && Kept(After(s, actions)) && |After(s, actions).place| == |s.place|
    decreases |actions|
  {
    hide Inv, Apply, Enabled, Kept;
    if actions != [] {
      StepInv(s, actions[0]);
      StepKept(s, actions[0]);
      RunKept(Apply(s, actions[0]), actions[1..]);
    }
  }

  lemma {:induction false} InitKept<M>(n: nat, m: M)
    ensures Kept(Init(n, m))
  {
    var s := Init(n, m);
    forall c: nat | c < n ensures c in s.free {
      assert s.free[n - 1 - c] == c;
    }
  }

  /** A cell whose message is on its way or being worked on. */
  predicate Underway(p: Place) { p.InInput? || p.Handling? || p.InOutput? || p.Sending? }

  /** From `s` to `s'` nothing was added, and cells changed their place only by being given back. */
  ghost predicate Settling<M>(s: State<M>, s': State<M>) {
    && |s'.place| == |s.place| && s'.addedIn == s.addedIn && s'.addedOut == s.addedOut
    && forall c: nat | c < |s.place| :: s'.place[c] == s.place[c] || (Underway(s.place[c]) && s'.place[c].Free?)
  }

  lemma {:induction false} TakeOne<M>(w: Way, s: State<M>) returns (actions: seq<Action<M>>)
    requires Inv(s) && w.Queue(s) != []
    ensures Possible(s, actions)
    ensures var s' := After(s, actions);
            Settling(s, s') && w.Queue(s') == w.Queue(s)[1..]
            && s'.input == (if w.Incoming? then s.input[1..] else s.input)
            && s'.output == (if w.Outgoing? then s.output[1..] else s.output)
  {
    hide Possible, After, Holds;
    var c := w.Queue(s)[0];
    assert At(s, c, if w.Incoming? then InInput else InOutput) by { FirstPlace(w, s); }
    StepShape(s, w.Remove());
    var s1 := Apply(s, w.Remove());
    StepShape(s1, Detouch(c));
    NoAction(Apply(s1, Detouch(c)));
    NextAction(s1, Detouch(c), []);
    NextAction(s, w.Remove(), [Detouch(c)] + []);
    actions := [w.Remove()] + ([Detouch(c)] + []);
  }

  lemma {:induction false} FirstPlace<M>(w: Way, s: State<M>)
    requires Inv(s) && w.Queue(s) != []
    ensures At(s, w.Queue(s)[0], if w.Incoming? then InInput else InOutput)
  {
  }

  lemma {:induction false} TakeAll<M>(w: Way, s: State<M>) returns (actions: seq<Action<M>>)
    requires Inv(s) && |s.place| <= QUEUE_SIZE
    ensures Possible(s, actions)
    ensures var s' := After(s, actions);
            && Inv(s') && Settling(s, s') && w.Queue(s') == []
            && (if w.Incoming? then s'.output == s.output else s'.input == s.input)
    decreases |w.Queue(s)|
  {
    hide Inv, Possible, After, Settling;
    if w.Queue(s) == [] {
      Settled(s);
      actions := [];
    } else {
      var first := TakeOne(w, s);
      RunInv(s, first);
      SettlingSize(s, After(s, first));
      var rest := TakeAll(w, After(s, first));
      Chain(s, first, rest);
      SettlingTwice(s, After(s, first), After(After(s, first), rest));
      actions := first + rest;
    }
  }

  lemma {:induction false} Settled<M>(s: State<M>)
    requires Inv(s)
    ensures Possible(s, []) && After(s, []) == s && Settling(s, s)
  {
  }

  lemma {:induction false} SettlingSize<M>(s: State<M>, s': State<M>)
    requires Settling(s, s')
    ensures |s'.place| == |s.place|
  {
  }

  lemma {:induction false} SettlingTwice<M>(s: State<M>, s1: State<M>, s2: State<M>)
    requires Settling(s, s1) && Settling(s1, s2)
    ensures Settling(s, s2)
  {
  }

  lemma {:induction false} GiveBack<M>(s: State<M>, c: nat)
    requires Inv(s) && (At(s, c, Handling) || At(s, c, Sending))
    ensures Possible(s, [Detouch(c)])
    ensures var s' := After(s, [Detouch(c)]);
            Settling(s, s') && s'.place == s.place[c := Free] && s'.input == s.input && s'.output == s.output
  {
    hide Possible, After, Holds;
    StepShape(s, Detouch(c));
    NoAction(Apply(s, Detouch(c)));
    NextAction(s, Detouch(c), []);
    var one: seq<Action<M>> := [Detouch(c)];
    assert one + [] == one;
  }

  /** The cells below `k` that are being worked on are given back. */
  lemma {:induction false} GiveAllBack<M>(s: State<M>, k: nat) returns (actions: seq<Action<M>>)
    requires Inv(s) && |s.place| <= QUEUE_SIZE && k <= |s.place|
    ensures Possible(s, actions)
    ensures var s' := After(s, actions);
            && Inv(s') && Settling(s, s') && s'.input == s.input && s'.output == s.output
            && forall c: nat | c < k :: !At(s', c, Handling) && !At(s', c, Sending)
  {
    hide Inv, Possible, After;
    if k == 0 {
      Settled(s);
      actions := [];
    } else {
      actions := GiveAllBack(s, k - 1);
      var s1 := After(s, actions);
      if At(s1, k - 1, Handling) || At(s1, k - 1, Sending) {
        GiveBack(s1, k - 1);
        RunInv(s1, [Detouch(k - 1)]);
        Chain(s, actions, [Detouch(k - 1)]);
        var s2 := After(s1, [Detouch(k - 1)]);
        SettlingTwice(s, s1, s2);
        actions := actions + [Detouch(k - 1)];
        forall c: nat | c < k ensures !At(s2, c, Handling) && !At(s2, c, Sending) {
          assert c < k - 1 ==> !At(s1, c, Handling) && !At(s1, c, Sending);
        }
      } else {
        forall c: nat | c < k ensures !At(s1, c, Handling) && !At(s1, c, Sending) {
          assert c < k - 1 ==> !At(s1, c, Handling) && !At(s1, c, Sending);
        }
      }
    }
  }

  /** From every reachable state the threads can work off what there is: both queues are emptied, every message that
      was added is taken, and every cell that was queued or being worked on is back in the list of unused ones. */
  lemma {:induction false} Settles<M>(s: State<M>) returns (actions: seq<Action<M>>)
    requires Inv(s) && Kept(s) && |s.place| <= QUEUE_SIZE
    ensures Possible(s, actions)
    ensures var s' := After(s, actions);
            && Inv(s') && Settling(s, s') && s'.input == s'.output == []
            && s'.takenIn == s.addedIn && s'.takenOut == s.addedOut
            && forall c: nat | c < |s.place| :: Underway(s.place[c]) || s.place[c].Free? ==> c in s'.free
  {
    hide Possible, After, Settling, Kept, Inv;
    var a1 := TakeAll(Incoming, s);
    var s1 := After(s, a1);
    SettlingSize(s, s1);
    var a2 := TakeAll(Outgoing, s1);
    var s2 := After(s1, a2);
    SettlingSize(s1, s2);
    var a3 := GiveAllBack(s2, |s2.place|);
    var s3 := After(s2, a3);
    Chain(s1, a2, a3);
    Chain(s, a1, a2 + a3);
    actions := a1 + (a2 + a3);
    SettlingTwice(s, s1, s2);
    SettlingTwice(s, s2, s3);
    RunKept(s, actions);
    AllBack(s, s3);
  }

  lemma {:induction false} AllBack<M>(s: State<M>, s': State<M>)
    requires Inv(s') && Kept(s') && Settling(s, s') && s'.input == s'.output == []
    requires forall c: nat | c < |s'.place| :: !At(s', c, Handling) && !At(s', c, Sending)
    ensures s'.takenIn == s.addedIn && s'.takenOut == s.addedOut
    ensures forall c: nat | c < |s.place| :: Underway(s.place[c]) || s.place[c].Free? ==> c in s'.free
  {
    hide Holds;
    forall c: nat | c < |s.place| && (Underway(s.place[c]) || s.place[c].Free?) ensures c in s'.free {
      assert !At(s', c, Handling) && !At(s', c, Sending);
    }
  }

  /** As long as there is an unused cell a message can be sent, either way: some run takes it, after all those
      added before. */
  lemma {:induction false} GetsThrough<M>(w: Way, s: State<M>, m: M) returns (actions: seq<Action<M>>)
    requires Inv(s) && Kept(s) && |s.place| <= QUEUE_SIZE && s.free != []
    ensures Possible(s, actions)
    ensures w.Taken(After(s, actions)) == w.Added(s) + [m]
  {
    InvShaped(s);
    hide Possible, After, Kept, Inv, Settling, Apply, Enabled, Shaped;
    var c := s.free[0];
    var first := TouchAndFill(w, s, m);
    var s1 := After(s, first);
    RunInv(s, first);
    QueueHasRoom(w, s1, c);
    AddStep(w, s1, c);
    var s2 := Apply(s1, w.Add(c));
    NoAction(s2);
    NextAction(s1, w.Add(c), []);
    Chain(s, first, [w.Add(c)] + []);
    var sent := first + ([w.Add(c)] + []);
    RunKept(s, sent);
    var rest := Settles(s2);
    Chain(s, sent, rest);
    actions := sent + rest;
  }

  lemma {:induction false} InvShaped<M>(s: State<M>)
    requires Inv(s)
    ensures Shaped(s)
  {
    hide Shaped;
  }

  lemma {:induction false} QueueHasRoom<M>(w: Way, s: State<M>, c: nat)
    requires Inv(s) && |s.place| <= QUEUE_SIZE && At(s, c, w.Before())
    ensures |w.Queue(s)| < QUEUE_SIZE
  {
    RoomLeft(s, w.Queue(s), if w.Incoming? then InInput else InOutput, c);
  }
}
