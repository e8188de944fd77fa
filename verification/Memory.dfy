/** Flat byte memory and block copies within it. */
module Memory {

  type Byte = n: nat | n < 256

  /** `mem` after copying `n` bytes from `src` to `dst`; the regions may overlap. */
  function Copy(mem: seq<Byte>, dst: nat, src: nat, n: nat): (r: seq<Byte>)
    requires dst + n <= |mem| && src + n <= |mem|
    ensures |r| == |mem|
  {
    mem[..dst] + mem[src..src + n] + mem[dst + n..]
  }

  method MemMove(mem: array<Byte>, dst: nat, src: nat, n: nat)
    requires dst + n <= mem.Length && src + n <= mem.Length
    modifies mem
    ensures mem[..] == Copy(old(mem[..]), dst, src, n)
  {
    forall i | 0 <= i < n {
      mem[dst + i] := mem[src + i];
    }
  }

  /** Two address ranges share a byte. */
  predicate Overlap(a: nat, n: nat, b: nat, m: nat) {
    a < b + m && b < a + n && n > 0 && m > 0
  }

  /** A copy does not change a range it does not write to. */
  lemma {:induction false} CopyElsewhere(mem: seq<Byte>, dst: nat, src: nat, n: nat, a: nat, k: nat)
    requires dst + n <= |mem| && src + n <= |mem| && a + k <= |mem|
    requires !Overlap(dst, n, a, k)
    ensures Copy(mem, dst, src, n)[a..a + k] == mem[a..a + k]
  {
    var r := Copy(mem, dst, src, n);
    forall i | a <= i < a + k ensures r[i] == mem[i] {
      assert i < dst || i >= dst + n;
    }
  }

  /** Copying a range onto itself changes nothing. */
  lemma {:induction false} CopyOntoItself(mem: seq<Byte>, a: nat, n: nat)
    requires a + n <= |mem|
    ensures Copy(mem, a, a, n) == mem
  {
  }
}
