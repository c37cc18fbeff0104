/** Machine words as rows of 64 bits, least significant bit first, with the operators the kernel uses on them. */
module Words {
  import opened Arithmetic

  function Zeros(n: nat): (s: seq<bool>)
    ensures |s| == n && forall i | 0 <= i < n :: !s[i]
  {
    if n == 0 then [] else Zeros(n - 1) + [false]
  }

  type Word = w: seq<bool> | |w| == 64 witness Zeros(64)

  const ZERO: Word := Zeros(64)

  /** The word whose bits `lo` to `hi - 1` are set. */
  function Ones(lo: nat, hi: nat): Word {
    seq(64, i => lo <= i < hi)
  }

  function And(a: Word, b: Word): Word {
    seq(64, i requires 0 <= i < 64 => a[i] && b[i])
  }

  function Or(a: Word, b: Word): Word {
    seq(64, i requires 0 <= i < 64 => a[i] || b[i])
  }

  function ShiftRight(a: Word, k: nat): Word {
    seq(64, i requires 0 <= i < 64 => i + k < 64 && a[i + k])
  }

  function ShiftLeft(a: Word, k: nat): Word {
    seq(64, i requires 0 <= i < 64 => i >= k && a[i - k])
  }

  /** One bit at place `k`. */
  function Bit(on: bool, k: nat): Word {
    if on then Ones(k, k + 1) else ZERO
  }

  // ----- words and numbers -----

  /** The lower `k` bits of `n`. */
  function Bits(n: nat, k: nat): (s: seq<bool>)
    ensures |s| == k
  {
    if k == 0 then [] else [n % 2 == 1] + Bits(n / 2, k - 1)
  }

  /** The number that bits stand for, least significant bit first. */
  function Value(bits: seq<bool>): nat {
    if bits == [] then 0 else (if bits[0] then 1 else 0) + 2 * Value(bits[1..])
  }

  lemma {:induction false} ValueJoin(a: seq<bool>, b: seq<bool>)
    ensures Value(a + b) == Value(a) + Pow2(|a|) * Value(b)
  {
    if a == [] {
      assert a + b == b;
    } else {
      ValueJoin(a[1..], b);
      assert (a + b)[1..] == a[1..] + b;
      Doubled(Pow2(|a| - 1), Value(b));
    }
  }

  lemma {:induction false} ValueBound(a: seq<bool>)
    ensures Value(a) < Pow2(|a|)
  {
    if a != [] {
      ValueBound(a[1..]);
    }
  }

  lemma {:induction false} AllSet(a: seq<bool>)
    requires forall i | 0 <= i < |a| :: a[i]
    ensures Value(a) == Pow2(|a|) - 1
  {
    if a != [] {
      AllSet(a[1..]);
    }
  }

  lemma {:induction false} AllClear(a: seq<bool>)
    requires forall i | 0 <= i < |a| :: !a[i]
    ensures Value(a) == 0
  {
    if a != [] {
      AllClear(a[1..]);
    }
  }

  lemma {:induction false} BitsValue(n: nat, k: nat)
    ensures Value(Bits(n, k)) < Pow2(k) && (n < Pow2(k) ==> Value(Bits(n, k)) == n)
    decreases k
  {
    if k > 0 {
      assert Bits(n, k)[1..] == Bits(n / 2, k - 1);
      BitsValue(n / 2, k - 1);
    }
  }

  lemma {:induction false} BitsPrefix(n: nat, j: nat, k: nat)
    requires j <= k
    ensures Bits(n, k)[..j] == Bits(n, j)
    decreases k
  {
    if j > 0 {
      BitsPrefix(n / 2, j - 1, k - 1);
      assert Bits(n, k)[..j] == [n % 2 == 1] + Bits(n / 2, k - 1)[..j - 1];
    }
  }

  lemma ZerosAbove(s: seq<bool>, t: seq<bool>)
    requires forall i | 0 <= i < |t| :: !t[i]
    ensures Value(s + t) == Value(s)
  {
    ValueJoin(s, t);
    AllClear(t);
  }
}
