/** Transmit batching: packets are collected per port and handed to the driver in bursts; what the driver does
    not take is freed. */
module Transmit {

  const MAX_PKT_BURST: nat := 32

  /** What became of a buffer. */
  datatype Fate<T> = Sent(b: T) | Freed(b: T)

  function Buffers<T>(fates: seq<Fate<T>>): (r: seq<T>)
    ensures |r| == |fates|
  {
    seq(|fates|, i requires 0 <= i < |fates| => fates[i].b)
  }

  /** The first `k` buffers of a burst were sent, the others freed. */
  function BurstFates<T>(burst: seq<T>, k: nat): (r: seq<Fate<T>>)
    requires k <= |burst|
    ensures |r| == |burst|
  {
    seq(|burst|, i requires 0 <= i < |burst| => if i < k then Sent(burst[i]) else Freed(burst[i]))
  }

  function SentOf<T>(fates: seq<Fate<T>>): seq<T> {
    if fates == [] then []
    else
      var last := fates[|fates| - 1];
      SentOf(fates[..|fates| - 1]) + if last.Sent? then [last.b] else []
  }

  function FreedOf<T>(fates: seq<Fate<T>>): seq<T> {
    if fates == [] then []
    else
      var last := fates[|fates| - 1];
      FreedOf(fates[..|fates| - 1]) + if last.Freed? then [last.b] else []
  }

  /** Each buffer was either sent or freed. */
  lemma {:induction false} Conserved<T>(fates: seq<Fate<T>>)
    ensures multiset(Buffers(fates)) == multiset(SentOf(fates)) + multiset(FreedOf(fates))
  {
    if fates == [] {
      assert Buffers(fates) == [];
    } else {
      var rest := fates[..|fates| - 1];
      Conserved(rest);
      assert Buffers(fates) == Buffers(rest) + [fates[|fates| - 1].b];
    }
  }

  /** The elements of `s` come from increasing positions of `all`. */
  ghost predicate Picked<T>(s: seq<T>, all: seq<T>, at: seq<nat>) {
    && |at| == |s|
    && (forall i | 0 <= i < |at| :: at[i] < |all| && all[at[i]] == s[i])
    && (forall i, j | 0 <= i < j < |at| :: at[i] < at[j])
  }

  lemma {:induction false} OneMorePicked<T>(s: seq<T>, all: seq<T>, at: seq<nat>, b: T)
    requires Picked(s, all, at)
    ensures Picked(s + [b], all + [b], at + [|all|]) && Picked(s, all + [b], at)
  {
  }

  /** What was sent went out in the order of its fates. */
  lemma {:induction false} SentInOrder<T>(fates: seq<Fate<T>>) returns (at: seq<nat>)
    ensures Picked(SentOf(fates), Buffers(fates), at)
  {
    if fates == [] {
      at := [];
    } else {
      hide Picked;
      var n := |fates| - 1;
      var rest := SentInOrder(fates[..n]);
      OneMorePicked(SentOf(fates[..n]), Buffers(fates[..n]), rest, fates[n].b);
      assert Buffers(fates) == Buffers(fates[..n]) + [fates[n].b];
      at := if fates[n].Sent? then rest + [n] else rest;
      assert !fates[n].Sent? ==> SentOf(fates) == SentOf(fates[..n]);
    }
  }

  /** One call of the driver: how many buffers it was offered, and how many it took. */
  datatype Burst = Burst(offered: nat, accepted: nat)

  function Accepted(bursts: seq<Burst>): nat {
    if bursts == [] then 0 else Accepted(bursts[..|bursts| - 1]) + bursts[|bursts| - 1].accepted
  }

  function Offered(bursts: seq<Burst>): nat {
    if bursts == [] then 0 else Offered(bursts[..|bursts| - 1]) + bursts[|bursts| - 1].offered
  }

  lemma {:induction false} OneMoreBurst(bursts: seq<Burst>, b: Burst)
    ensures Accepted(bursts + [b]) == Accepted(bursts) + b.accepted && Offered(bursts + [b]) == Offered(bursts) + b.offered
  {
    assert (bursts + [b])[..|bursts|] == bursts;
  }

  lemma {:induction false} AllTaken(bursts: seq<Burst>)
    requires forall i | 0 <= i < |bursts| :: bursts[i].accepted == bursts[i].offered
    ensures Accepted(bursts) == Offered(bursts)
  {
    if bursts != [] { AllTaken(bursts[..|bursts| - 1]); }
  }

  lemma {:induction false} OneMoreFate<T>(fates: seq<Fate<T>>, f: Fate<T>)
    ensures SentOf(fates + [f]) == SentOf(fates) + if f.Sent? then [f.b] else []
    ensures FreedOf(fates + [f]) == FreedOf(fates) + if f.Freed? then [f.b] else []
  {
    assert (fates + [f])[..|fates|] == fates;
  }

  /** Of a burst the first `k` buffers are sent and the others freed. */
  lemma {:induction false} BurstSplits<T>(fates: seq<Fate<T>>, burst: seq<T>, k: nat)
    requires k <= |burst|
    ensures SentOf(fates + BurstFates(burst, k)) == SentOf(fates) + burst[..k]
    ensures FreedOf(fates + BurstFates(burst, k)) == FreedOf(fates) + burst[k..]
    decreases |burst|
  {
    hide SentOf, FreedOf;
    if burst == [] {
      assert fates + BurstFates(burst, k) == fates;
    } else {
      var n := |burst| - 1;
      var b, j, f := burst[..n], if k <= n then k else n, if n < k then Sent(burst[n]) else Freed(burst[n]);
      BurstSplits(fates, b, j);
      OneMoreFate(fates + BurstFates(b, j), f);
      assert fates + BurstFates(burst, k) == fates + BurstFates(b, j) + [f];
      assert burst[..k] == b[..j] + if n < k then [burst[n]] else [];
      assert burst[k..] == b[j..] + if n < k then [] else [burst[n]];
    }
  }

  /** What can happen at a port. */
  datatype Event<T> = Arrives(b: T) | DrainTime

  function PacketsOf<T>(events: seq<Event<T>>): seq<T> {
    if events == [] then []
    else
      var last := events[|events| - 1];
      PacketsOf(events[..|events| - 1]) + if last.Arrives? then [last.b] else []
  }

  lemma {:induction false} OneMoreEvent<T>(events: seq<Event<T>>, i: nat)
    requires i < |events|
    ensures PacketsOf(events[..i + 1]) == PacketsOf(events[..i]) + if events[i].Arrives? then [events[i].b] else []
  {
    assert events[..i + 1][..i] == events[..i];
  }

  lemma {:induction false} NoEvents<T>(events: seq<Event<T>>)
    ensures PacketsOf(events[..0]) == [] && events[..|events|] == events
  {
  }

  lemma {:induction false} OneMorePending(n: nat, i: nat)
    ensures (n + i + 1) % 32 == if (n + i) % 32 + 1 == 32 then 0 else (n + i) % 32 + 1
    ensures n < 32 ==> (n + 0) % 32 == n
  {
  }

  class Port<T(0)> {
    const mTable: array<T>
    var len: nat
    ghost var enqueued: seq<T>      // all buffers ever given to the port, in order
    ghost var fates: seq<Fate<T>>   // what became of those no longer pending, in the same order
    ghost var bursts: seq<Burst>    // all calls of the driver

    /** Each buffer is pending, sent or freed, in exactly one way and in the order it came; as many are sent as the
        driver took, and the others it was offered are freed; less than a burst is pending. */
    ghost predicate Valid()
      reads this, mTable
    {
      mTable.Length == MAX_PKT_BURST && len < MAX_PKT_BURST && enqueued == Buffers(fates) + mTable[..len]
      && |SentOf(fates)| == Accepted(bursts) && |SentOf(fates)| + |FreedOf(fates)| == Offered(bursts)
    }

    constructor (placeholder: T)
      ensures Valid() && enqueued == [] && fates == [] && bursts == [] && len == 0 && fresh(mTable)
    {
      mTable := new T[MAX_PKT_BURST](_ => placeholder);
      len, enqueued, fates, bursts := 0, [], [], [];
    }

    /** The driver takes and sends any number of the first `n` buffers, in order. */
    method TxBurst(n: nat) returns (ret: nat)
      requires n <= mTable.Length
      modifies this`fates, this`bursts
      ensures ret <= n && bursts == old(bursts) + [Burst(n, ret)]
      ensures fates == old(fates) + BurstFates(mTable[..n], ret)[..ret]
    {
      ret :| ret <= n;
      bursts := bursts + [Burst(n, ret)];
      fates := fates + BurstFates(mTable[..n], ret)[..ret];
    }

    method FreeBuffer(i: nat)
      requires i < mTable.Length
      modifies this`fates
      ensures fates == old(fates) + [Freed(mTable[i])]
    {
      fates := fates + [Freed(mTable[i])];
    }

    /** The driver was called once more, with `burst`; it took the first so many of them, and these were sent; the
        others were freed. */
    twostate predicate Transmitted(burst: seq<T>)
      reads this
    {
      && |bursts| == |old(bursts)| + 1 && bursts[..|bursts| - 1] == old(bursts)
      && var b := bursts[|bursts| - 1];
      && b.offered == |burst| && b.accepted <= |burst|
      && fates == old(fates) + BurstFates(burst, b.accepted)
      && SentOf(fates) == old(SentOf(fates)) + burst[..b.accepted]
      && FreedOf(fates) == old(FreedOf(fates)) + burst[b.accepted..]
    }

    method SendBurst(n: nat)
      requires n <= mTable.Length
      modifies this`fates, this`bursts
      ensures Transmitted(mTable[..n])
    {
      var ret := TxBurst(n);
      ghost var k := ret;
      while ret < n
        invariant bursts == old(bursts) + [Burst(n, k)]
        invariant k <= ret <= n && fates == old(fates) + BurstFates(mTable[..n], k)[..ret]
      {
        FreeBuffer(ret);
        assert BurstFates(mTable[..n], k)[..ret + 1] == BurstFates(mTable[..n], k)[..ret] + [Freed(mTable[ret])];
        ret := ret + 1;
      }
      assert BurstFates(mTable[..n], k)[..n] == BurstFates(mTable[..n], k);
      BurstSplits(old(fates), mTable[..n], k);
    }

    method SendPacket(mbuf: T)
      requires Valid()
      modifies this, mTable
      ensures Valid() && enqueued == old(enqueued) + [mbuf] && old(bursts) <= bursts && old(len) < 32
      ensures old(len) + 1 < 32 ==> fates == old(fates) && bursts == old(bursts) && len == old(len) + 1
      ensures old(len) + 1 == 32 ==> len == 0 && Transmitted(old(mTable[..len]) + [mbuf])
    {
      hide SentOf, FreedOf, Accepted, Offered;
      var queueLength := len;
      mTable[queueLength] := mbuf;
      queueLength := queueLength + 1;
      enqueued := enqueued + [mbuf];
      assert mTable[..queueLength] == old(mTable[..len]) + [mbuf];
      if queueLength == MAX_PKT_BURST {
        SendBurst(MAX_PKT_BURST);
        queueLength := 0;
        OneMoreBurst(old(bursts), bursts[|bursts| - 1]);
        assert bursts == old(bursts) + [bursts[|bursts| - 1]];
      }
      len := queueLength;
    }

    /** Sends what is pending; done for every port when the drain interval has passed. */
    method Drain()
      requires Valid()
      modifies this
      ensures Valid() && len == 0 && enqueued == old(enqueued) && old(bursts) <= bursts
      ensures old(len) == 0 ==> fates == old(fates) && bursts == old(bursts)
      ensures old(len) > 0 ==> Transmitted(old(mTable[..len]))
    {
      hide SentOf, FreedOf, Accepted, Offered;
      if len == 0 {
        return;
      }
      SendBurst(len);
      len := 0;
      OneMoreBurst(old(bursts), bursts[|bursts| - 1]);
      assert bursts == old(bursts) + [bursts[|bursts| - 1]];
    }

    lemma Pending()
      requires Valid()
      ensures len < 32
    {
    }

    /** A driver that takes all it is offered gets every buffer that is not pending; none is freed. */
    lemma NoneFreed()
      requires Valid() && forall i | 0 <= i < |bursts| :: bursts[i].accepted == bursts[i].offered
      ensures FreedOf(fates) == [] && multiset(enqueued) == multiset(SentOf(fates)) + multiset(mTable[..len])
    {
      AllTaken(bursts);
      Accounted();
    }

    /** Nothing is sent twice, sent and freed, or lost: each buffer given to the port so far is among those sent,
        those freed or those pending, in exactly one way. */
    lemma Accounted()
      requires Valid()
      ensures multiset(enqueued) == multiset(SentOf(fates)) + multiset(FreedOf(fates)) + multiset(mTable[..len])
    {
      Conserved(fates);
    }

    /** What was sent went out in the order it was enqueued. */
    lemma InOrder() returns (at: seq<nat>)
      requires Valid()
      ensures Picked(SentOf(fates), enqueued, at)
    {
      at := SentInOrder(fates);
      forall i | 0 <= i < |at| ensures at[i] < |enqueued| && enqueued[at[i]] == SentOf(fates)[i] {
        assert Buffers(fates)[at[i]] == SentOf(fates)[i];
      }
    }

    /** The main loop of an lcore: packets are given to the port and the port is drained, in any order and number.
        All packets are accounted for at the end, and those sent left in the order they came. */
    method Run(events: seq<Event<T>>)
      requires Valid()
      modifies this, mTable
      ensures Valid() && enqueued == old(enqueued) + PacketsOf(events)
      ensures multiset(old(enqueued) + PacketsOf(events))
           == multiset(SentOf(fates)) + multiset(FreedOf(fates)) + multiset(mTable[..len])
      ensures exists at :: Picked(SentOf(fates), old(enqueued) + PacketsOf(events), at)
      ensures old(bursts) <= bursts
      ensures (forall i | 0 <= i < |bursts| :: bursts[i].accepted == bursts[i].offered) ==> FreedOf(fates) == []
      ensures (forall i | 0 <= i < |events| :: events[i].Arrives?) ==> len == (old(len) + |events|) % 32
      ensures events != [] && events[|events| - 1].DrainTime? ==> len == 0
    {
      hide SentOf, FreedOf, Accepted, Offered, Picked, Valid, Transmitted, Buffers, PacketsOf;
      Pending();
      NoEvents(events);
      OneMorePending(len, 0);
      ghost var before := enqueued;
      for i := 0 to |events|
        invariant Valid() && enqueued == before + PacketsOf(events[..i])
        invariant i > 0 && events[i - 1].DrainTime? ==> len == 0
        invariant old(bursts) <= bursts
        invariant (forall j | 0 <= j < i :: events[j].Arrives?) ==> len == (old(len) + i) % 32
      {
        OneMoreEvent(events, i);
        OneMorePending(old(len), i);
        match events[i] {
          case Arrives(b) => SendPacket(b);
          case DrainTime => Drain();
        }
      }
      Accounted();
      ghost var at := InOrder();
      if forall i | 0 <= i < |bursts| :: bursts[i].accepted == bursts[i].offered { NoneFreed(); }
    }
  }
}
