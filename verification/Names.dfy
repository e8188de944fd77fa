/** Names of generated temporaries: a prefix, an underscore, and the value of a counter in decimal,
    padded with zeros to at least four digits. */
module Names {

  /** What a temporary is for; the prefix of its name says so. */
  datatype Purpose = Bitmask(w: nat) | Masked | Casted | FieldValue(w: nat) {
    function Prefix(): string {
      match this
      case Bitmask(w) => "bitmask_" + Decimal(w) + "b"
      case Masked => "masking"
      case Casted => "casting"
      case FieldValue(w) => "value" + Decimal(w) + "b"
    }
  }

  datatype TempName = TempName(purpose: Purpose, counter: nat) {
    /** The name as it appears in the C text. */
    function Text(): string { purpose.Prefix() + "_" + Padded(counter) }
  }

  function Digit(d: nat): (c: char)
    requires d < 10
    ensures '0' <= c <= '9'
  {
    '0' + d as char
  }

  function Decimal(n: nat): (s: string)
    ensures forall i :: 0 <= i < |s| ==> '0' <= s[i] <= '9'
  {
    if n < 10 then [Digit(n)] else Decimal(n / 10) + [Digit(n % 10)]
  }

  /** The format `{n:04d}`. */
  function Padded(n: nat): (s: string)
    ensures forall i :: 0 <= i < |s| ==> '0' <= s[i] <= '9'
  {
    var d := Decimal(n);
    if |d| >= 4 then d else seq(4 - |d|, _ => '0') + d
  }

  /** The number written by a string of digits. */
  function Reading(s: string): int {
    if s == [] then 0 else 10 * Reading(s[..|s| - 1]) + (s[|s| - 1] as int - '0' as int)
  }

  lemma {:induction false} ReadingOfDecimal(n: nat)
    ensures Reading(Decimal(n)) == n
  {
    var s := Decimal(n);
    if n >= 10 {
      assert s[..|s| - 1] == Decimal(n / 10);
      ReadingOfDecimal(n / 10);
    }
  }

  lemma {:induction false} ReadingOfZeros(k: nat, s: string)
    ensures Reading(seq(k, _ => '0') + s) == Reading(s)
    decreases k + |s|
  {
    var t := seq(k, _ => '0') + s;
    if s != [] {
      assert t[..|t| - 1] == seq(k, _ => '0') + s[..|s| - 1];
      ReadingOfZeros(k, s[..|s| - 1]);
    } else if k > 0 {
      assert t[..|t| - 1] == seq(k - 1, _ => '0') + s;
      ReadingOfZeros(k - 1, s);
    }
  }

  lemma ReadingOfPadded(n: nat)
    ensures Reading(Padded(n)) == n
  {
    ReadingOfDecimal(n);
    ReadingOfZeros(if |Decimal(n)| < 4 then 4 - |Decimal(n)| else 0, Decimal(n));
    assert seq(0, _ => '0') + Decimal(n) == Decimal(n);
  }

  lemma NoUnderscoreAfter(p: string, d: string)
    requires '_' !in d
    ensures forall i :: |p| < i < |p| + 1 + |d| ==> (p + "_" + d)[i] != '_'
  {
    assert forall i :: |p| < i < |p| + 1 + |d| ==> (p + "_" + d)[i] == d[i - |p| - 1];
  }

  /** A name splits in one way only, at its last underscore. */
  lemma SplitAtUnderscore(p: string, d: string, q: string, e: string)
    requires p + "_" + d == q + "_" + e
    requires '_' !in d && '_' !in e
    ensures p == q && d == e
  {
    var s := p + "_" + d;
    NoUnderscoreAfter(p, d);
    NoUnderscoreAfter(q, e);
    assert s[|p|] == '_' == (q + "_" + e)[|q|];
    assert p == s[..|p|] && d == s[|p| + 1..];
    assert q == s[..|q|] && e == s[|q| + 1..];
  }

  lemma PrefixInjective(p: Purpose, q: Purpose)
    requires p.Prefix() == q.Prefix()
    ensures p == q
  {
    assert p.Prefix()[0] == q.Prefix()[0];
    if p.Bitmask? || p.FieldValue? {
      var s, k := p.Prefix(), if p.Bitmask? then 8 else 5;
      assert Decimal(p.w) == s[k..|s| - 1] == Decimal(q.w);
      ReadingOfDecimal(p.w);
      ReadingOfDecimal(q.w);
    }
  }

  /** Different names have different texts. In particular two temporaries drawn at different counter
      values never collide, whatever they are for. */
  lemma TextInjective(a: TempName, b: TempName)
    requires a.Text() == b.Text()
    ensures a == b
  {
    SplitAtUnderscore(a.purpose.Prefix(), Padded(a.counter), b.purpose.Prefix(), Padded(b.counter));
    PrefixInjective(a.purpose, b.purpose);
    ReadingOfPadded(a.counter);
    ReadingOfPadded(b.counter);
  }
}
