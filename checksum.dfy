/**
  The GSE CHK2 checksum of gsechksum: a running sum over the values, kept
  within 10^8 in magnitude by C's truncating remainder, whose magnitude is the
  checksum.
 */
module Checksum {
  import opened Differencing

  const Modulo: int := 100000000

  /** The range of int32_t. */
  predicate Int32(x: int) { -0x8000_0000 <= x < 0x8000_0000 }

  /** C's `/` on positive divisors: the quotient is truncated toward zero. */
  function TruncDiv(x: int, d: int): (q: int)
    requires d > 0
    ensures Abs(q) == Abs(x) / d
    ensures x >= 0 ==> q >= 0
    ensures x <= 0 ==> q <= 0
  {
    if x >= 0 then x / d else -((-x) / d)
  }

  /** `x - MODULO * (x / MODULO)`: the remainder of truncating division,
      which keeps the sign of x, differs from x by a multiple of 10^8 and is
      below 10^8 in magnitude. */
  function Reduce(x: int): (r: int)
    ensures Abs(r) < Modulo
    ensures x >= 0 ==> r >= 0
    ensures x <= 0 ==> r <= 0
    ensures (x - r) % Modulo == 0
    ensures Abs(x) < Modulo ==> r == x
  {
    var q := TruncDiv(x, Modulo);
    assert x - (x - Modulo * q) == Modulo * q;
    x - Modulo * q
  }

  /** One turn of the loop: reduce the value if its magnitude exceeds 10^8,
      add it, and reduce the sum if its magnitude then exceeds 10^8. */
  function Step(ck: int, v: int): (r: int)
    ensures Abs(ck) <= Modulo ==> Abs(r) <= Modulo
    ensures (ck + v - r) % Modulo == 0
  {
    var val := if Abs(v) > Modulo then Reduce(v) else v;
    var sum := ck + val;
    if Abs(sum) > Modulo then Reduce(sum) else sum
  }

  /** The accumulator cksum after the values of s. */
  function Running(s: seq<int>): int
  {
    if s == [] then 0 else Step(Running(s[..|s| - 1]), s[|s| - 1])
  }

  /** The checksum of s: the magnitude of the final sum. */
  function Chk2(s: seq<int>): nat
  {
    Abs(Running(s))
  }

  /** One step keeps an accumulator within 10^8 in magnitude, and on the
      way it never leaves int32_t: the reduced value and the partial sum are
      at most 10^8 and 2 * 10^8 in magnitude. */
  lemma StepBounds(ck: int, v: int)
    requires Abs(ck) <= Modulo
    ensures var val := if Abs(v) > Modulo then Reduce(v) else v;
      Abs(val) <= Modulo && Int32(ck + val) && Abs(ck + val) <= 2 * Modulo
    ensures Abs(Step(ck, v)) <= Modulo
  {
  }

  /** The accumulator never exceeds 10^8 in magnitude. */
  lemma {:induction false} RunningBound(s: seq<int>)
    ensures Abs(Running(s)) <= Modulo
  {
    if s != [] {
      RunningBound(s[..|s| - 1]);
      StepBounds(Running(s[..|s| - 1]), s[|s| - 1]);
    }
  }

  /** The checksum lies in [0, 10^8]. */
  lemma Chk2Range(s: seq<int>)
    ensures 0 <= Chk2(s) <= Modulo
  {
    RunningBound(s);
  }

  /** Every reduction removes a multiple of 10^8, so the accumulator agrees
      with the exact sum modulo 10^8. */
  lemma {:induction false} RunningCongruent(s: seq<int>)
    ensures (Sum(s) - Running(s)) % Modulo == 0
  {
    if s != [] {
      var init := s[..|s| - 1];
      var v := s[|s| - 1];
      RunningCongruent(init);
      var ck := Running(init);
      var val := if Abs(v) > Modulo then Reduce(v) else v;
      var sum := ck + val;
      var d1 := Sum(init) - ck;
      var d2 := v - val;
      var d3 := sum - Running(s);
      assert d2 % Modulo == 0 && d3 % Modulo == 0;
      assert Sum(s) - Running(s) == d1 + d2 + d3;
      MultiplesAdd(d1, d2, d3);
    }
  }

  lemma MultiplesAdd(x: int, y: int, z: int)
    requires x % Modulo == 0 && y % Modulo == 0 && z % Modulo == 0
    ensures (x + y + z) % Modulo == 0
  {
    var a, b, c := x / Modulo, y / Modulo, z / Modulo;
    assert x + y + z == Modulo * (a + b + c);
  }

  /** Without any reduction the checksum is the magnitude of the sum: when
      every value and every partial sum stays within 10^8. */
  lemma {:induction false} NoReduction(s: seq<int>)
    requires forall k :: 0 <= k < |s| ==> Abs(s[k]) <= Modulo
    requires forall k :: 0 < k <= |s| ==> Abs(Sum(s[..k])) <= Modulo
    ensures Running(s) == Sum(s)
    ensures Chk2(s) == Abs(Sum(s))
  {
    if s != [] {
      var init := s[..|s| - 1];
      assert s[..|s|] == s;
      forall k | 0 < k <= |init| ensures Abs(Sum(init[..k])) <= Modulo {
        assert init[..k] == s[..k];
      }
      NoReduction(init);
    }
  }

  /** The reduction truncates toward zero: a negative value is reduced to a
      non-positive remainder, where a floored modulo would give a
      non-negative one. */
  lemma Examples()
    ensures Chk2([1, 2, 3, 4, 5]) == 15
    ensures Chk2([100000000]) == 100000000
    ensures Chk2([100000000, 1]) == 1
    ensures Reduce(-150000000) == -50000000
    ensures Chk2([-150000000, 10]) == 49999990
  {
    assert [1, 2, 3, 4, 5][..4] == [1, 2, 3, 4];
    assert [1, 2, 3, 4][..3] == [1, 2, 3];
    assert [1, 2, 3][..2] == [1, 2];
    assert [1, 2][..1] == [1];
    assert [1][..0] == [];
    assert [100000000, 1][..1] == [100000000];
    assert [100000000][..0] == [];
    assert [-150000000, 10][..1] == [-150000000];
    assert [-150000000][..0] == [];
    assert TruncDiv(-150000000, Modulo) == -1;
  }

  /** gsechksum over the Nint values of intbuf. */
  method GseChecksum(intbuf: array<int>) returns (ck: int)
    requires forall k :: 0 <= k < intbuf.Length ==> Int32(intbuf[k]) && intbuf[k] != -0x8000_0000
    ensures ck == Chk2(intbuf[..])
    ensures 0 <= ck <= Modulo
  {
    var cksum := 0;
    for i := 0 to intbuf.Length
      invariant cksum == Running(intbuf[..i])
      invariant Abs(cksum) <= Modulo
    {
      var val;
      if Abs(intbuf[i]) > Modulo {
        val := intbuf[i] - Modulo * TruncDiv(intbuf[i], Modulo);
      } else {
        val := intbuf[i];
      }
      cksum := cksum + val;
      if Abs(cksum) > Modulo {
        cksum := cksum - Modulo * TruncDiv(cksum, Modulo);
      }
      assert intbuf[..i + 1][..i] == intbuf[..i];
      StepBounds(Running(intbuf[..i]), intbuf[i]);
    }
    assert intbuf[..intbuf.Length] == intbuf[..];
    ck := Abs(cksum);
  }
}
