/** Results that may be missing. */
module Options {
  datatype Option<+T> = None | Some(value: T)
}

/** Sequences of distinct elements, and fields laid out one after the other. */
module Sequences {

  ghost predicate Distinct<T>(s: seq<T>) {
    forall i, j | 0 <= i < j < |s| :: s[i] != s[j]
  }

  ghost function Elements<T>(s: seq<T>): set<T> {
    set c | c in s
  }

  lemma {:induction false} CountDistinct<T>(s: seq<T>)
    requires Distinct(s)
    ensures |Elements(s)| == |s|
  {
    if s != [] {
      CountDistinct(s[1..]);
      assert Elements(s) == {s[0]} + Elements(s[1..]);
    }
  }

  /** The sum of the widths before index `i`. */
  function Offset(widths: seq<nat>, i: nat): nat
    requires i <= |widths|
  {
    if i == 0 then 0 else Offset(widths, i - 1) + widths[i - 1]
  }

  lemma {:induction false} OffsetsInOrder(widths: seq<nat>, i: nat, j: nat)
    requires i < j <= |widths|
    ensures Offset(widths, i) + widths[i] <= Offset(widths, j)
    decreases j
  {
    if i < j - 1 {
      OffsetsInOrder(widths, i, j - 1);
    }
  }

  /** The offsets of fields laid after others start where those end. */
  lemma {:induction false} OffsetsAdd(a: seq<nat>, b: seq<nat>, j: nat)
    requires j <= |b|
    ensures Offset(a + b, |a| + j) == Offset(a, |a|) + Offset(b, j)
  {
    if j > 0 {
      OffsetsAdd(a, b, j - 1);
    } else {
      OffsetOfPrefix(a, b, |a|);
    }
  }

  lemma {:induction false} OffsetOfPrefix(a: seq<nat>, b: seq<nat>, i: nat)
    requires i <= |a|
    ensures Offset(a + b, i) == Offset(a, i)
  {
    if i > 0 { OffsetOfPrefix(a, b, i - 1); }
  }

  /** The parts one after the other. */
  function Joined<T>(parts: seq<seq<T>>): seq<T> {
    if parts == [] then [] else parts[0] + Joined(parts[1..])
  }

  function Lengths<T>(parts: seq<seq<T>>): (r: seq<nat>)
    ensures |r| == |parts|
  {
    seq(|parts|, i requires 0 <= i < |parts| => |parts[i]|)
  }

  lemma {:induction false} OffsetBehindFirst<T>(parts: seq<seq<T>>, j: nat)
    requires 1 <= j <= |parts|
    ensures Offset(Lengths(parts), j) == |parts[0]| + Offset(Lengths(parts[1..]), j - 1)
  {
    var first, rest := [|parts[0]|], Lengths(parts[1..]);
    assert Lengths(parts) == first + rest;
    assert Offset(first, 1) == Offset(first, 0) + |parts[0]|;
    OffsetsAdd(first, rest, j - 1);
  }

  lemma {:induction false} LengthOfJoined<T>(parts: seq<seq<T>>)
    ensures |Joined(parts)| == Offset(Lengths(parts), |parts|)
  {
    hide Lengths;
    if parts != [] {
      LengthOfJoined(parts[1..]);
      OffsetBehindFirst(parts, |parts|);
    }
  }

  lemma {:induction false} SliceBehind<T>(a: seq<T>, b: seq<T>, o: nat, n: nat)
    requires o + n <= |b|
    ensures (a + b)[|a| + o..|a| + o + n] == b[o..o + n]
  {
  }

  /** Offsets are where things are: among parts put one after the other, part `i` is what lies at the offset
      of `i`, and the offset after the last one is the length of them all. */
  lemma {:induction false} PartAtOffset<T>(parts: seq<seq<T>>, i: nat)
    requires i < |parts|
    ensures |Joined(parts)| == Offset(Lengths(parts), |parts|)
    ensures var o := Offset(Lengths(parts), i);
            o + |parts[i]| <= |Joined(parts)| && Joined(parts)[o..o + |parts[i]|] == parts[i]
  {
    LengthOfJoined(parts);
    if i == 0 {
      assert Offset(Lengths(parts), 0) == 0;
    } else {
      hide Offset, Lengths;
      PartAtOffset(parts[1..], i - 1);
      OffsetBehindFirst(parts, i);
      SliceBehind(parts[0], Joined(parts[1..]), Offset(Lengths(parts[1..]), i - 1), |parts[i]|);
    }
  }
}
