/** Messages over a byte stream: reading and writing with any pattern of short reads and writes. */
module Framing {
  import opened Memory
  import opened Wire

  /** One direction of a connection. A working connection delivers all its bytes before it reports its end,
      and a write takes at least a byte; a broken one may fail at any call. */
  class Stream {
    var bytes: seq<Byte>       // sent and not yet received
    const broken: bool

    constructor (broken: bool)
      ensures bytes == [] && this.broken == broken
    {
      this.bytes, this.broken := [], broken;
    }

    /** Receives any number of bytes up to `n`, zero at the end of the stream, or fails. */
    method Read(buf: array<Byte>, at: nat, n: nat) returns (r: int)
      requires n > 0 && at + n <= buf.Length
      modifies this`bytes, buf
      ensures r <= n && (r < 0 ==> broken) && (r == 0 ==> old(bytes) == [])
      ensures r > 0 ==> r <= |old(bytes)| && bytes == old(bytes)[r..] && buf[..] == Put(old(buf[..]), at, old(bytes)[..r])
      ensures r <= 0 ==> bytes == old(bytes) && buf[..] == old(buf[..])
    {
      if broken && bytes == [] {
        return -1;
      }
      if bytes == [] {
        return 0;
      }
      var k: nat :| 0 < k <= n && k <= |bytes|;
      PutBytes(buf, at, bytes[..k]);
      bytes := bytes[k..];
      return k;
    }

    /** Sends any positive number of the bytes from `at` on, up to `n`, or fails. */
    method Write(buf: array<Byte>, at: nat, n: nat) returns (r: int)
      requires n > 0 && at + n <= buf.Length
      modifies this`bytes
      ensures r <= n && r != 0 && (r < 0 ==> broken)
      ensures bytes == if r > 0 then old(bytes) + buf[at..at + r] else old(bytes)
    {
      if broken {
        return -1;
      }
      var k: nat :| 0 < k <= n;
      bytes := bytes + buf[at..at + k];
      return k;
    }
  }

  /** Reads exactly `nbytes` bytes, or reports the end of the stream (zero) or a failure; a count that is
      not positive reads nothing and looks like the end of the stream. */
  method ReadFix(sock: Stream, buf: array<Byte>, at: nat, nbytes: int) returns (r: int)
    requires at + nbytes <= buf.Length && at <= buf.Length
    modifies sock`bytes, buf
    ensures r <= 0 || r == nbytes
    ensures nbytes <= 0 ==> r == 0 && sock.bytes == old(sock.bytes) && buf[..] == old(buf[..])
    ensures r > 0 ==> nbytes <= |old(sock.bytes)| && sock.bytes == old(sock.bytes)[nbytes..]
                      && buf[..] == Put(old(buf[..]), at, old(sock.bytes)[..nbytes])
    ensures !sock.broken ==> r >= 0
    ensures !sock.broken && nbytes > 0 ==> (r > 0 <==> nbytes <= |old(sock.bytes)|)
    ensures !sock.broken && nbytes > 0 && r == 0 ==> sock.bytes == []
  {
    hide Put;
    ghost var all, before := sock.bytes, buf[..];
    var rbytes := 0;
    PutNothing(before, at);
    assert all[..0] == [];
    while rbytes < nbytes
      invariant 0 <= rbytes && (rbytes <= nbytes || rbytes == 0) && rbytes <= |all|
      invariant sock.bytes == all[rbytes..] && at + rbytes <= buf.Length
      invariant buf[..] == Put(before, at, all[..rbytes])
    {
      var rval := sock.Read(buf, at + rbytes, nbytes - rbytes);
      if rval <= 0 {
        return rval;
      }
      PutTwice(before, at, all[..rbytes], all[rbytes..][..rval]);
      assert all[..rbytes] + all[rbytes..][..rval] == all[..rbytes + rval];
      rbytes := rbytes + rval;
    }
    return rbytes;
  }

  lemma {:induction false} PutNothing(b: seq<Byte>, at: nat)
    requires at <= |b|
    ensures Put(b, at, []) == b
  {
  }

  lemma {:induction false} PutTwice(b: seq<Byte>, at: nat, s: seq<Byte>, t: seq<Byte>)
    requires at + |s| + |t| <= |b|
    ensures Put(Put(b, at, s), at + |s|, t) == Put(b, at, s + t)
  {
  }

  method WriteFix(sock: Stream, buf: array<Byte>, nbytes: nat) returns (r: int)
    requires nbytes <= buf.Length
    modifies sock`bytes
    ensures r == nbytes || (r < 0 && sock.broken)
    ensures r >= 0 ==> sock.bytes == old(sock.bytes) + buf[..nbytes]
  {
    ghost var all := sock.bytes;
    var wbytes := 0;
    while wbytes < nbytes
      invariant 0 <= wbytes <= nbytes && sock.bytes == all + buf[..wbytes]
    {
      var wval := sock.Write(buf, wbytes, nbytes - wbytes);
      if wval < 0 {
        return wval;
      }
      assert buf[..wbytes] + buf[wbytes..wbytes + wval] == buf[..wbytes + wval];
      wbytes := wbytes + wval;
    }
    return wbytes;
  }

  /** The length a message claims in its header, in network order. */
  function ClaimedLength(s: seq<Byte>): nat
    requires |s| >= HEADER_SIZE
  {
    Number(Reversed(s[2..4]))
  }

  /** What reading one message gives: the message, the end of the stream, or the refusal of one that is too
      long; and what is left of the stream. A claimed length below the header's own size looks like the end. */
  datatype Frame = Message(m: seq<Byte>) | End | TooLong

  function NextFrame(s: seq<Byte>, length: nat): (r: (Frame, seq<Byte>))
    requires length >= HEADER_SIZE
    ensures |r.1| <= |s| && (r.0.Message? ==> |r.1| < |s| && |r.0.m| >= HEADER_SIZE)
  {
    if |s| < HEADER_SIZE then (End, [])
    else
      var n := ClaimedLength(s);
      if n > length then (TooLong, s[HEADER_SIZE..])
      else if n < HEADER_SIZE then (End, s[HEADER_SIZE..])
      else if |s| < n then (End, [])
      else (Message(s[..n]), s[n..])
  }

  /** The same in terms of the bytes received: `r` and what is left after reading from `s`. */
  ghost predicate ReadOne(s: seq<Byte>, length: nat, r: int, message: seq<Byte>, left: seq<Byte>) {
    if |s| < 8 then r == 0 && left == []
    else if Big2(s, 2) > length then r == -100 && left == s[8..]
    else if Big2(s, 2) < 8 then r == 0 && left == s[8..]
    else if |s| < Big2(s, 2) then r == 0 && left == []
    else r == Big2(s, 2) && message == s[..r] && left == s[r..]
  }

  method ReadP4Msg(sock: Stream, buf: array<Byte>, length: nat) returns (r: int)
    requires length <= buf.Length
    modifies sock`bytes, buf
    ensures length < HEADER_SIZE ==> r == -1 && sock.bytes == old(sock.bytes)
    ensures r <= length
    ensures length >= HEADER_SIZE && !sock.broken ==>
              var (f, rest) := NextFrame(old(sock.bytes), length);
              && sock.bytes == rest
              && match f
                 case Message(m) => r == |m| && buf[..r] == m
                 case End => r == 0
                 case TooLong => r == -100
    ensures r > 0 ==> NextFrame(old(sock.bytes), length) == (Message(buf[..r]), sock.bytes)
    ensures length >= 8 && !sock.broken ==>
              ReadOne(old(sock.bytes), length, r, if r > 0 then buf[..r] else [], sock.bytes)
  {
    if length < HEADER_SIZE {
      return -1;
    }
    hide Number, Reversed, Put, Big2;
    ghost var all, before := sock.bytes, buf[..];
    if |all| >= 8 { Big2IsNumber(all, 2); }
    r := ReadFix(sock, buf, 0, HEADER_SIZE);
    if r <= 0 {
      return;
    }
    HeaderRead(before, all);
    assert buf[2..4] == buf[..][2..4];
    var msglen := Number(Reversed(buf[2..4]));
    if msglen > length {
      return -100;
    }
    if msglen == HEADER_SIZE {
      assert buf[..msglen] == buf[..][..msglen];
      return msglen;
    }
    r := ReadFix(sock, buf, HEADER_SIZE, msglen - HEADER_SIZE);
    if r <= 0 {
      return;
    }
    RestRead(before, all, msglen);
    assert buf[..msglen] == buf[..][..msglen];
    return msglen;
  }

  lemma {:induction false} HeaderRead(before: seq<Byte>, all: seq<Byte>)
    requires HEADER_SIZE <= |all| && HEADER_SIZE <= |before|
    ensures var b := Put(before, 0, all[..HEADER_SIZE]);
            b[2..4] == all[2..4] && b[..HEADER_SIZE] == all[..HEADER_SIZE]
  {
  }

  lemma {:induction false} RestRead(before: seq<Byte>, all: seq<Byte>, n: nat)
    requires HEADER_SIZE <= n <= |all| && n <= |before|
    ensures all[HEADER_SIZE..][n - HEADER_SIZE..] == all[n..]
    ensures Put(Put(before, 0, all[..HEADER_SIZE]), HEADER_SIZE, all[HEADER_SIZE..][..n - HEADER_SIZE])[..n] == all[..n]
  {
    PutTwice(before, 0, all[..HEADER_SIZE], all[HEADER_SIZE..][..n - HEADER_SIZE]);
    assert all[..HEADER_SIZE] + all[HEADER_SIZE..][..n - HEADER_SIZE] == all[..n];
  }

  method WriteP4Msg(sock: Stream, buf: array<Byte>, length: nat) returns (r: int)
    requires length <= buf.Length
    modifies sock`bytes
    ensures length < HEADER_SIZE ==> r == -1 && sock.bytes == old(sock.bytes)
    ensures length >= HEADER_SIZE ==>
              var n := Big2(buf[..], 2);
              if n > length then r == -1 && sock.bytes == old(sock.bytes)
              else (r == n && sock.bytes == old(sock.bytes) + buf[..n]) || (r < 0 && sock.broken)
  {
    if length < HEADER_SIZE {
      return -1;
    }
    assert buf[..][2..4] == buf[2..4];
    Big2IsNumber(buf[..], 2);
    var msglen := Number(Reversed(buf[2..4]));
    if msglen > length {
      return -1;
    }
    r := WriteFix(sock, buf, msglen);
  }

  // ---------------------------------------------------------------- sequences of messages

  /** A message that states its own length, between the header's size and `length`. */
  predicate WellFramed(m: seq<Byte>, length: nat) {
    HEADER_SIZE <= |m| <= length && ClaimedLength(m) == |m|
  }

  lemma {:induction false} FramedByBytes(m: seq<Byte>, length: nat)
    ensures WellFramed(m, length) <==> 8 <= |m| <= length && Big2(m, 2) == |m|
    ensures length >= 8 ==> WellFramed([1, 5, 0, 8, 0, 0, 0, 7], length)
  {
    hide Number;
    if |m| >= 8 { Big2IsNumber(m, 2); }
    Big2IsNumber([1, 5, 0, 8, 0, 0, 0, 7], 2);
  }

  function Concat(ms: seq<seq<Byte>>): seq<Byte> {
    if ms == [] then [] else ms[0] + Concat(ms[1..])
  }

  /** All messages that repeated reading returns before the stream ends. */
  function Frames(s: seq<Byte>, length: nat): seq<seq<Byte>>
    requires length >= HEADER_SIZE
    decreases |s|
  {
    var (f, rest) := NextFrame(s, length);
    match f
    case Message(m) => [m] + Frames(rest, length)
    case _ => []
  }

  lemma {:induction false} FrameIsMessage(m: seq<Byte>, rest: seq<Byte>, length: nat)
    requires length >= HEADER_SIZE && WellFramed(m, length)
    ensures NextFrame(m + rest, length) == (Message(m), rest)
  {
    assert (m + rest)[2..4] == m[2..4];
  }

  /** Reading back what was written returns the same messages one by one: none is lost, cut or joined, and
      nothing is carried over. */
  lemma {:induction false} FramesOfConcat(ms: seq<seq<Byte>>, length: nat)
    requires length >= HEADER_SIZE && forall m | m in ms :: WellFramed(m, length)
    ensures Frames(Concat(ms), length) == ms
    decreases |ms|
  {
    if ms == [] {
      assert Frames([], length) == [];
    } else {
      FrameIsMessage(ms[0], Concat(ms[1..]), length);
      FramesOfConcat(ms[1..], length);
    }
  }

  lemma {:induction false} ConcatMore(ms: seq<seq<Byte>>, m: seq<Byte>)
    ensures Concat(ms + [m]) == Concat(ms) + m
    decreases |ms|
  {
    if ms == [] {
      assert Concat([m]) == m + Concat([m][1..]) == m;
      assert ms + [m] == [m];
    } else {
      assert (ms + [m])[1..] == ms[1..] + [m];
      ConcatMore(ms[1..], m);
    }
  }

  /** A message that claims a length below the header's size ends the stream for its reader: its header is taken
      off, and the messages behind it are not read. */
  lemma {:induction false} ShortClaimEndsStream(rest: seq<Byte>, length: nat)
    requires length >= HEADER_SIZE
    ensures NextFrame([1, 0, 0, 3, 0, 0, 0, 0] + rest, length) == (End, rest)
    ensures Frames([1, 0, 0, 3, 0, 0, 0, 0] + rest, length) == []
  {
    var m: seq<Byte> := [1, 0, 0, 3, 0, 0, 0, 0];
    assert Reversed(m[2..4]) == [3, 0];
    assert [3, 0][1..] == [0] && [0][1..] == [];
    assert Number([3, 0]) == 3 + 256 * Number([0]) && Number([0]) == 0;
    assert (m + rest)[2..4] == m[2..4];
  }

  /** Any two well-framed sequences with the same bytes are the same: framing is unambiguous. */
  lemma {:induction false} FramingUnambiguous(ms: seq<seq<Byte>>, ns: seq<seq<Byte>>, length: nat)
    requires length >= HEADER_SIZE && Concat(ms) == Concat(ns)
    requires (forall m | m in ms :: WellFramed(m, length)) && (forall n | n in ns :: WellFramed(n, length))
    ensures ms == ns
  {
    FramesOfConcat(ms, length);
    FramesOfConcat(ns, length);
  }

  // ---------------------------------------------------------------- a connection in use

  /** Sends messages one after the other, each from a buffer of its own. */
  method SendAll(sock: Stream, ms: seq<seq<Byte>>, length: nat) returns (ok: bool)
    requires forall m | m in ms :: WellFramed(m, length)
    modifies sock`bytes
    ensures !sock.broken ==> ok
    ensures ok ==> sock.bytes == old(sock.bytes) + Concat(ms)
  {
    hide Concat, ClaimedLength;
    NothingSent(sock.bytes);
    for i := 0 to |ms|
      invariant sock.bytes == old(sock.bytes) + Concat(ms[..i])
    {
      var m := ms[i];
      assert m in ms;
      var buf := new Byte[|m|](j requires 0 <= j < |m| => m[j]);
      assert buf[..] == m;
      FramedByBytes(m, length);
      label before:
      var r := WriteP4Msg(sock, buf, |m|);
      if r < 0 {
        return false;
      }
      assert sock.bytes == old@before(sock.bytes) + m;
      ConcatMore(ms[..i], m);
      assert ms[..i + 1] == ms[..i] + [m];
    }
    assert ms[..|ms|] == ms;
    return true;
  }

  lemma {:induction false} NothingSent(before: seq<Byte>)
    ensures before + Concat([]) == before
  {
  }

  /** Reads messages into one buffer until there is none. */
  method ReceiveAll(sock: Stream, length: nat) returns (ms: seq<seq<Byte>>)
    requires length >= HEADER_SIZE
    modifies sock`bytes
    ensures ms <= Frames(old(sock.bytes), length)
    ensures !sock.broken ==> ms == Frames(old(sock.bytes), length)
  {
    hide NextFrame, Frames;
    var buf := new Byte[length];
    ms := [];
    var r := ReadP4Msg(sock, buf, length);
    ghost var from := old(sock.bytes);
    while r > 0
      invariant r <= length && (r > 0 ==> NextFrame(from, length) == (Message(buf[..r]), sock.bytes))
      invariant !sock.broken ==> (r <= 0 ==> !NextFrame(from, length).0.Message?)
      invariant ms + Frames(from, length) == Frames(old(sock.bytes), length)
      decreases |from|
    {
      FramesStep(ms, from, buf[..r], sock.bytes, length);
      ms := ms + [buf[..r]];
      from := sock.bytes;
      r := ReadP4Msg(sock, buf, length);
    }
    FramesEnd(from, length);
  }

  lemma {:induction false} FramesStep(before: seq<seq<Byte>>, s: seq<Byte>, m: seq<Byte>, rest: seq<Byte>, length: nat)
    requires length >= HEADER_SIZE && NextFrame(s, length) == (Message(m), rest)
    ensures before + Frames(s, length) == before + [m] + Frames(rest, length)
  {
    hide NextFrame;
  }

  lemma {:induction false} FramesEnd(s: seq<Byte>, length: nat)
    requires length >= HEADER_SIZE
    ensures !NextFrame(s, length).0.Message? ==> Frames(s, length) == []
  {
    hide NextFrame;
  }

  /** What is received is what was sent, for every pattern of short writes and short reads; on a broken
      connection it is the first part of it. */
  method Exchange(sock: Stream, ms: seq<seq<Byte>>, length: nat) returns (received: seq<seq<Byte>>, ok: bool)
    requires length >= HEADER_SIZE && sock.bytes == [] && forall m | m in ms :: WellFramed(m, length)
    modifies sock`bytes
    ensures ok ==> received <= ms
    ensures !sock.broken ==> ok && received == ms
  {
    ok := SendAll(sock, ms, length);
    FramesOfConcat(ms, length);
    assert [] + Concat(ms) == Concat(ms);
    received := ReceiveAll(sock, length);
  }
}
