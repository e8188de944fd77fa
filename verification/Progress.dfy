/** Nobody gets stuck in the replica protocol: packets end whatever the writer does, and a promote can always be
    finished and the next one started. */
module Progress {
  import opened Replicas

  // ---------------------------------------------------------------- putting runs together

  lemma {:induction false} NoAction<U>(s: State<U>)
    requires Shaped(s)
    ensures Valid(s, []) && After(s, []) == s
  {
  }

  lemma {:induction false} Chain<U>(s: State<U>, acts: seq<Action<U>>, more: seq<Action<U>>)
    requires Valid(s, acts) && Valid(After(s, acts), more)
    ensures Valid(s, acts + more) && After(s, acts + more) == After(After(s, acts), more)
    decreases |acts|
  {
    hide Apply, Enabled, Shaped;
    if acts == [] {
      assert acts + more == more;
    } else {
      Chain(Apply(s, acts[0]), acts[1..], more);
      NextAction(s, acts[0], acts[1..] + more);
      assert [acts[0]] + (acts[1..] + more) == acts + more;
    }
  }

  // ---------------------------------------------------------------- packets

  /** The lcore that takes an action, if one does. */
  predicate By<U>(a: Action<U>, l: nat) {
    a == StartPacket(l) || a == CopyPointer(l) || a == EndPacket(l)
  }

  /** The next action of lcore `l`. */
  function NextOf<U>(s: State<U>, l: nat): Action<U>
    requires l < |s.readers|
  {
    match s.readers[l]
    case Idle => StartPacket(l)
    case Busy(snap) => if |snap| < |s.tables| then CopyPointer(l) else EndPacket(l)
  }

  /** An lcore can always take its next step, whatever the writer and the other lcores have come to, and it has no
      other one. */
  lemma {:induction false} NeverBlocked<U>(s: State<U>, l: nat)
    requires Inv(s) && l < |s.readers|
    ensures Enabled(s, NextOf(s, l))
    ensures forall a: Action<U> | By(a, l) && Enabled(s, a) :: a == NextOf(s, l)
  {
    hide WriterOk, ContentsOk, PointersOk, CopyOk;
  }

  /** How many steps of its packet an lcore has taken. */
  function Phase<U>(s: State<U>, l: nat): nat
    requires l < |s.readers|
  {
    match s.readers[l]
    case Idle => 0
    case Busy(snap) => 1 + |snap|
  }

  function Own<U>(acts: seq<Action<U>>, l: nat): nat {
    if acts == [] then 0 else (if By(acts[0], l) then 1 else 0) + Own(acts[1..], l)
  }

  lemma {:induction false} StepPhase<U>(s: State<U>, a: Action<U>, l: nat)
    requires Inv(s) && Enabled(s, a) && l < |s.readers|
    ensures var s' := Apply(s, a);
            && |s'.readers| == |s.readers| && |s'.tables| == |s.tables|
            && Phase(s', l) == if !By(a, l) then Phase(s, l) else if Phase(s, l) == |s.tables| + 1 then 0 else Phase(s, l) + 1
  {
    hide WriterOk, ContentsOk, PointersOk, CopyOk;
    StepShape(s, a);
  }

  /** A packet takes one step to start, one for each table and one to end, however many steps of the writer and of
      other lcores come between: an idle lcore that has taken that many is idle again. */
  lemma {:induction false} PacketSteps<U>(s: State<U>, acts: seq<Action<U>>, l: nat)
    requires Inv(s) && Valid(s, acts) && l < |s.readers| && Phase(s, l) + Own(acts, l) <= |s.tables| + 2
    ensures var s' := After(s, acts);
            && |s'.readers| == |s.readers| && |s'.tables| == |s.tables|
            && Phase(s', l) == if Phase(s, l) + Own(acts, l) == |s.tables| + 2 && Own(acts, l) > 0 then 0
                               else Phase(s, l) + Own(acts, l)
    decreases |acts|
  {
    hide Inv, Apply, Enabled, Phase, By;
    PhaseRange(s, l);
    if acts != [] {
      var s1 := Apply(s, acts[0]);
      StepInv(s, acts[0]);
      StepPhase(s, acts[0], l);
      if By(acts[0], l) && Phase(s1, l) == 0 {
        NoOwnLeft(s1, acts[1..], l);
      } else {
        PacketSteps(s1, acts[1..], l);
      }
    }
  }

  lemma {:induction false} PhaseRange<U>(s: State<U>, l: nat)
    requires Inv(s) && l < |s.readers|
    ensures Phase(s, l) <= |s.tables| + 1
  {
    hide WriterOk, ContentsOk, PointersOk, CopyOk;
  }

  lemma {:induction false} NoOwnLeft<U>(s: State<U>, acts: seq<Action<U>>, l: nat)
    requires Inv(s) && Valid(s, acts) && l < |s.readers| && Own(acts, l) == 0
    ensures var s' := After(s, acts);
            |s'.readers| == |s.readers| && |s'.tables| == |s.tables| && Phase(s', l) == Phase(s, l)
    decreases |acts|
  {
    hide Inv, Apply, Enabled, Phase, By;
    if acts != [] {
      StepInv(s, acts[0]);
      StepPhase(s, acts[0], l);
      NoOwnLeft(Apply(s, acts[0]), acts[1..], l);
    }
  }

  /** A busy lcore can finish its packet by itself; nothing else changes, except that a sleeping writer no longer
      waits for it. */
  lemma {:induction false} PacketEnds<U>(s: State<U>, l: nat) returns (acts: seq<Action<U>>)
    requires Inv(s) && l < |s.readers| && s.readers[l].Busy?
    ensures Valid(s, acts) && forall a | a in acts :: By(a, l)
    ensures var w := s.writer;
            After(s, acts) == s.(readers := s.readers[l := Idle],
                                 writer := if w.Sleeping? then w.(waiting := w.waiting - {l}) else w)
    decreases |s.tables| + 1 - Phase(s, l)
  {
    PhaseRange(s, l);
    hide Inv, Valid, After;
    var a := NextOf(s, l);
    NeverBlocked(s, l);
    InvShaped(s);
    var s1 := Apply(s, a);
    StepInv(s, a);
    if a.EndPacket? {
      InvShaped(s1);
      NoAction(s1);
      NextAction(s, a, []);
      acts := [a] + [];
    } else {
      var rest := PacketEnds(s1, l);
      NextAction(s, a, rest);
      acts := [a] + rest;
      assert s1.readers[l := Idle] == s.readers[l := Idle];
    }
  }

  lemma {:induction false} InvShaped<U>(s: State<U>)
    requires Inv(s)
    ensures Shaped(s)
  {
    hide Shaped;
  }

  // ---------------------------------------------------------------- promotes

  /** A run that leads from `s` to a resting writer, with no new promote on the way. */
  ghost predicate Finishes<U>(s: State<U>, acts: seq<Action<U>>) {
    Valid(s, acts) && After(s, acts).writer.Resting? && forall i | 0 <= i < |acts| :: !acts[i].StartPromote?
  }

  lemma {:induction false} OneMore<U>(s: State<U>, a: Action<U>, acts: seq<Action<U>>)
    requires Shaped(s) && Enabled(s, a) && !a.StartPromote? && Finishes(Apply(s, a), acts)
    ensures Finishes(s, [a] + acts)
  {
    hide Apply, Enabled, Shaped, Valid, After;
    NextAction(s, a, acts);
  }

  lemma {:induction false} FromFinishing<U>(s: State<U>) returns (acts: seq<Action<U>>)
    requires Inv(s) && s.writer.Finishing?
    ensures Finishes(s, acts)
    decreases |s.tables[s.writer.tid].replicas| - s.writer.j
  {
    hide Finishes, ContentsOk, PointersOk, CopiesOk, Before;
    var w := s.writer;
    if w.j == |s.tables[w.tid].replicas| {
      StepInv(s, EndPromote);
      Rested(Apply(s, EndPromote));
      OneMore(s, EndPromote, []);
      acts := [EndPromote] + [];
    } else if w.j == w.next {
      StepInv(s, SkipNew);
      acts := FromFinishing(Apply(s, SkipNew));
      OneMore(s, SkipNew, acts);
      acts := [SkipNew] + acts;
    } else {
      StepInv(s, BeginOther);
      StepShape(s, BeginOther);
      var s1 := Apply(s, BeginOther);
      StepInv(s1, FinishOther);
      StepShape(s1, FinishOther);
      acts := FromFinishing(Apply(s1, FinishOther));
      OneMore(s1, FinishOther, acts);
      acts := [FinishOther] + acts;
      OneMore(s, BeginOther, acts);
      acts := [BeginOther] + acts;
    }
  }

  lemma {:induction false} Rested<U>(s: State<U>)
    requires Shaped(s) && s.writer.Resting?
    ensures Finishes(s, [])
  {
  }

  lemma {:induction false} FromSleeping<U>(s: State<U>) returns (acts: seq<Action<U>>)
    requires Inv(s) && s.writer.Sleeping?
    ensures Finishes(s, acts)
    decreases s.writer.waiting
  {
    var w := s.writer;
    hide Finishes, ContentsOk, PointersOk, CopiesOk, Before, Valid, After;
    if w.waiting == {} {
      StepInv(s, WakeUp);
      acts := FromFinishing(Apply(s, WakeUp));
      OneMore(s, WakeUp, acts);
      acts := [WakeUp] + acts;
    } else {
      var l :| l in w.waiting;
      var packet := PacketEnds(s, l);
      RunInv(s, packet);
      var rest := FromSleeping(After(s, packet));
      PacketThen(s, packet, rest, l);
      acts := packet + rest;
    }
  }

  lemma {:induction false} PacketThen<U>(s: State<U>, packet: seq<Action<U>>, rest: seq<Action<U>>, l: nat)
    requires Valid(s, packet) && (forall a | a in packet :: By(a, l)) && Finishes(After(s, packet), rest)
    ensures Finishes(s, packet + rest)
  {
    hide Valid, After;
    Chain(s, packet, rest);
    var acts := packet + rest;
    forall i | 0 <= i < |acts| ensures !acts[i].StartPromote? {
      assert i < |packet| ==> packet[i] in packet;
    }
  }

  lemma {:induction false} FromSwapping<U>(s: State<U>) returns (acts: seq<Action<U>>)
    requires Inv(s) && s.writer.Swapping?
    ensures Finishes(s, acts)
    decreases |s.pointers| - s.writer.k
  {
    hide Finishes, ContentsOk, PointersOk, CopiesOk, Before;
    var a: Action<U> := if s.writer.k < |s.pointers| then SwapNext else FallAsleep;
    StepInv(s, a);
    StepShape(s, a);
    if a.SwapNext? {
      acts := FromSwapping(Apply(s, a));
    } else {
      acts := FromSleeping(Apply(s, a));
    }
    OneMore(s, a, acts);
    acts := [a] + acts;
  }

  /** From every state in the middle of a promote some run finishes it. */
  lemma {:induction false} PromoteFinishes<U>(s: State<U>) returns (acts: seq<Action<U>>)
    requires Inv(s)
    ensures Finishes(s, acts)
  {
    hide Finishes, ContentsOk, PointersOk, CopiesOk, Before;
    match s.writer {
      case Resting =>
        Rested(s);
        acts := [];
      case WritingSpare(_, _, _) =>
        StepInv(s, FinishSpare);
        acts := FromSwapping(Apply(s, FinishSpare));
        OneMore(s, FinishSpare, acts);
        acts := [FinishSpare] + acts;
      case Swapping(_, _, _, _) => acts := FromSwapping(s);
      case Sleeping(_, _, _, _) => acts := FromSleeping(s);
      case Finishing(_, _, _, _) => acts := FromFinishing(s);
      case WritingOther(_, _, _, _) =>
        StepInv(s, FinishOther);
        acts := FromFinishing(Apply(s, FinishOther));
        OneMore(s, FinishOther, acts);
        acts := [FinishOther] + acts;
    }
  }

  /** Every update can be promoted on every table whenever the writer rests, and the outcome is that of the
      uninterrupted code. */
  lemma {:induction false} PromoteCompletes<U>(s: State<U>, tid: nat, u: U) returns (acts: seq<Action<U>>)
    requires Inv(s) && s.writer.Resting? && tid < |s.tables|
    ensures Valid(s, [StartPromote(tid, u)] + acts)
    ensures var s' := After(s, [StartPromote(tid, u)] + acts);
            s'.writer.Resting? && Inv(s') && Promoted(s.tables, s.pointers, tid, u, s'.tables, s'.pointers)
  {
    hide ContentsOk, PointersOk, CopiesOk, Before, Promoted, Valid, After;
    var a: Action<U> := StartPromote(tid, u);
    StepInv(s, a);
    acts := PromoteFinishes(Apply(s, a));
    NextAction(s, a, acts);
    PromoteOutcome(s, tid, u, acts);
    RunInv(s, [a] + acts);
  }

  function UpdatesOf<U>(updates: seq<(nat, U)>, t: nat): seq<U> {
    if updates == [] then [] else (if updates[0].0 == t then [updates[0].1] else []) + UpdatesOf(updates[1..], t)
  }

  /** From `s` to `s'` every table has gained its updates, in order. */
  ghost predicate Gained<U>(s: State<U>, s': State<U>, updates: seq<(nat, U)>) {
    && |s'.tables| == |s.tables| == |s.log| == |s'.log|
    && forall t | 0 <= t < |s.tables| :: s'.log[t] == s.log[t] + UpdatesOf(updates, t)
  }

  lemma {:induction false} GainedNothing<U>(s: State<U>)
    requires Shaped(s)
    ensures Gained(s, s, [])
  {
  }

  lemma {:induction false} GainedMore<U>(s: State<U>, s1: State<U>, s2: State<U>, updates: seq<(nat, U)>)
    requires updates != [] && Gained(s, s1, [updates[0]]) && Gained(s1, s2, updates[1..])
    ensures Gained(s, s2, updates)
  {
    forall t | 0 <= t < |s.tables| ensures s2.log[t] == s.log[t] + UpdatesOf(updates, t) {
      UpdatesFirst(updates, t);
      hide UpdatesOf;
      assert s1.log[t] == s.log[t] + UpdatesOf([updates[0]], t) && s2.log[t] == s1.log[t] + UpdatesOf(updates[1..], t);
    }
  }

  lemma {:induction false} UpdatesFirst<U>(updates: seq<(nat, U)>, t: nat)
    requires updates != []
    ensures UpdatesOf(updates, t) == UpdatesOf([updates[0]], t) + UpdatesOf(updates[1..], t)
  {
    var none: seq<(nat, U)> := [];
    assert [updates[0]][1..] == none;
  }

  /** The log is what the replicas hold while the writer rests. */
  lemma {:induction false} PromoteGains<U>(s: State<U>, tid: nat, u: U, s': State<U>)
    requires Inv(s) && s.writer.Resting? && tid < |s.tables| && s'.writer.Resting? && Inv(s')
    requires Promoted(s.tables, s.pointers, tid, u, s'.tables, s'.pointers)
    ensures Gained(s, s', [(tid, u)])
  {
    hide PointersOk, CopiesOk;
    var none: seq<(nat, U)> := [];
    assert [(tid, u)][1..] == none;
    forall t | 0 <= t < |s.tables| ensures s'.log[t] == s.log[t] + UpdatesOf([(tid, u)], t) {
      assert ContentOk(s, t, 0) && ContentOk(s', t, 0);
    }
  }

  /** Any sequence of updates, to any tables, can be promoted one after the other. */
  lemma {:induction false} AllPromotes<U>(s: State<U>, updates: seq<(nat, U)>) returns (acts: seq<Action<U>>)
    requires Inv(s) && s.writer.Resting? && forall i | 0 <= i < |updates| :: updates[i].0 < |s.tables|
    ensures Valid(s, acts) && After(s, acts).writer.Resting? && Inv(After(s, acts))
    ensures Gained(s, After(s, acts), updates)
    decreases |updates|
  {
    InvShaped(s);
    hide Valid, After, Inv, Promoted, Apply, Enabled, Shaped, Gained;
    if updates == [] {
      NoAction(s);
      GainedNothing(s);
      acts := [];
    } else {
      var (tid, u) := updates[0];
      var first := PromoteCompletes(s, tid, u);
      first := [StartPromote(tid, u)] + first;
      var s1 := After(s, first);
      PromoteGains(s, tid, u, s1);
      assert |s1.tables| == |s.tables| by { GainedShape(s, s1, [(tid, u)]); }
      var rest := AllPromotes(s1, updates[1..]);
      Chain(s, first, rest);
      GainedMore(s, s1, After(s1, rest), updates);
      acts := first + rest;
    }
  }

  lemma {:induction false} GainedShape<U>(s: State<U>, s': State<U>, updates: seq<(nat, U)>)
    requires Gained(s, s', updates)
    ensures |s'.tables| == |s.tables|
  {
  }
}
