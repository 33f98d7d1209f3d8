/**
  First-order differencing of an integer buffer and its inverse, the running
  sum, both done in place from left to right; and their D-fold iterates,
  which the encoder applies before writing digits and the decoder undoes
  after reading them.

  Values are mathematical integers: the 32-bit wrap-around of the C
  arithmetic is not modelled.
 */
module Differencing {

  /** The magnitude of x: `abs(x)`, and `(x > 0) ? x : -x`. */
  function Abs(x: int): nat { if x < 0 then -x else x }

  /** Sum of the elements of s. */
  function Sum(s: seq<int>): int
  {
    if |s| == 0 then 0 else Sum(s[..|s| - 1]) + s[|s| - 1]
  }

  /** First-order differences: the first element is kept, every later one
      becomes its distance from its predecessor in the input. */
  function Differences(s: seq<int>): (d: seq<int>)
  {
    seq(|s|, i requires 0 <= i < |s| => if i == 0 then s[0] else s[i] - s[i - 1])
  }

  /** Running sums: element i becomes the sum of the first i + 1 elements. */
  function PrefixSums(s: seq<int>): (p: seq<int>)
  {
    seq(|s|, i requires 0 <= i < |s| => Sum(s[..i + 1]))
  }

  /** The encoder's transform: Differences applied d times. */
  function DeltaN(s: seq<int>, d: nat): seq<int>
  {
    if d == 0 then s else Differences(DeltaN(s, d - 1))
  }

  /** The decoder's transform: PrefixSums applied d times. */
  function UndeltaN(s: seq<int>, d: nat): seq<int>
  {
    if d == 0 then s else PrefixSums(UndeltaN(s, d - 1))
  }

  lemma SumOfDifferences(s: seq<int>)
    requires |s| > 0
    ensures Sum(Differences(s)) == s[|s| - 1]
  {
    if |s| > 1 {
      var init := s[..|s| - 1];
      assert Differences(s)[..|s| - 1] == Differences(init);
      SumOfDifferences(init);
    }
  }

  /** Running sums undo differences. */
  lemma PrefixSumsOfDifferences(s: seq<int>)
    ensures PrefixSums(Differences(s)) == s
  {
    forall i | 0 <= i < |s| ensures PrefixSums(Differences(s))[i] == s[i] {
      assert Differences(s)[..i + 1] == Differences(s[..i + 1]);
      SumOfDifferences(s[..i + 1]);
    }
  }

  /** Differences undo running sums. */
  lemma DifferencesOfPrefixSums(s: seq<int>)
    ensures Differences(PrefixSums(s)) == s
  {
    forall i | 0 <= i < |s| ensures Differences(PrefixSums(s))[i] == s[i] {
      var p := PrefixSums(s);
      assert s[..i + 1][..i] == s[..i];
      assert p[i] == Sum(s[..i]) + s[i];
      if i == 0 {
        assert s[..0] == [];
      } else {
        assert p[i - 1] == Sum(s[..i]);
      }
    }
  }

  /** The first element is never changed, at any order. */
  lemma {:induction false} FirstUnchanged(s: seq<int>, d: nat)
    ensures |DeltaN(s, d)| == |s| && |UndeltaN(s, d)| == |s|
    ensures |s| > 0 ==> DeltaN(s, d)[0] == s[0] && UndeltaN(s, d)[0] == s[0]
  {
    if d > 0 {
      FirstUnchanged(s, d - 1);
      if |s| > 0 {
        var u := UndeltaN(s, d - 1);
        assert UndeltaN(s, d) == PrefixSums(u);
        assert u[..1][..0] == [];
        assert Sum(u[..1]) == u[0];
      }
    }
  }

  /** Buffers of length at most one are left as they are. */
  lemma {:induction false} ShortUnchanged(s: seq<int>, d: nat)
    requires |s| <= 1
    ensures DeltaN(s, d) == s && UndeltaN(s, d) == s
  {
    FirstUnchanged(s, d);
  }

  lemma {:induction false} UndeltaNPeel(s: seq<int>, d: nat)
    requires d > 0
    ensures UndeltaN(s, d) == UndeltaN(PrefixSums(s), d - 1)
  {
    if d > 1 {
      UndeltaNPeel(s, d - 1);
    }
  }

  lemma {:induction false} DeltaNPeel(s: seq<int>, d: nat)
    requires d > 0
    ensures DeltaN(s, d) == DeltaN(Differences(s), d - 1)
  {
    if d > 1 {
      DeltaNPeel(s, d - 1);
    }
  }

  /** Undifferencing d times after differencing d times restores the input
      exactly. */
  lemma {:induction false} UndeltaNDeltaN(s: seq<int>, d: nat)
    ensures UndeltaN(DeltaN(s, d), d) == s
  {
    if d > 0 {
      var t := DeltaN(s, d - 1);
      UndeltaNPeel(Differences(t), d);
      PrefixSumsOfDifferences(t);
      UndeltaNDeltaN(s, d - 1);
    }
  }

  /** And in the other order. */
  lemma {:induction false} DeltaNUndeltaN(s: seq<int>, d: nat)
    ensures DeltaN(UndeltaN(s, d), d) == s
  {
    if d > 0 {
      var t := UndeltaN(s, d - 1);
      DeltaNPeel(PrefixSums(t), d);
      DifferencesOfPrefixSums(t);
      DeltaNUndeltaN(s, d - 1);
    }
  }

  /** One in-place differencing pass over a[..n]; a[n..] is not touched. */
  method Delta(a: array<int>, n: nat)
    requires n <= a.Length
    modifies a
    ensures a[..n] == Differences(old(a[..n]))
    ensures a[n..] == old(a[n..])
  {
    if n == 0 {
      return;
    }
    var m1 := a[0];
    var i := 1;
    while i < n
      invariant 1 <= i <= n
      invariant m1 == old(a[i - 1])
      invariant a[0] == old(a[0])
      invariant forall k :: 1 <= k < i ==> a[k] == old(a[k]) - old(a[k - 1])
      invariant forall k :: i <= k < a.Length ==> a[k] == old(a[k])
    {
      var tmpi := a[i];
      a[i] := tmpi - m1;
      m1 := tmpi;
      i := i + 1;
    }
    assert a[n..] == old(a[n..]);
  }

  /** One in-place running-sum pass over a[..n]; a[n..] is not touched. */
  method Undelta(a: array<int>, n: nat)
    requires n <= a.Length
    modifies a
    ensures a[..n] == PrefixSums(old(a[..n]))
    ensures a[n..] == old(a[n..])
  {
    if n == 0 {
      return;
    }
    ghost var s := a[..n];
    var i := 1;
    while i < n
      invariant 1 <= i <= n
      invariant forall k :: 0 <= k < i ==> a[k] == Sum(s[..k + 1])
      invariant forall k :: i <= k < a.Length ==> a[k] == old(a[k])
    {
      assert s[..i + 1][..i] == s[..i];
      a[i] := a[i] + a[i - 1];
      i := i + 1;
    }
    assert s[..1][..0] == [];
    assert a[n..] == old(a[n..]);
  }

  /** `for (j = 0; j < d; j++) delta(a, n)`. */
  method DeltaTimes(a: array<int>, n: nat, d: nat)
    requires n <= a.Length
    modifies a
    ensures a[..n] == DeltaN(old(a[..n]), d)
    ensures a[n..] == old(a[n..])
  {
    for j := 0 to d
      invariant a[..n] == DeltaN(old(a[..n]), j)
      invariant a[n..] == old(a[n..])
    {
      Delta(a, n);
    }
  }

  /** `for (j = 0; j < d; j++) undelta(a, n)`. */
  method UndeltaTimes(a: array<int>, n: nat, d: nat)
    requires n <= a.Length
    modifies a
    ensures a[..n] == UndeltaN(old(a[..n]), d)
    ensures a[n..] == old(a[n..])
  {
    for j := 0 to d
      invariant a[..n] == UndeltaN(old(a[..n]), j)
      invariant a[n..] == old(a[n..])
    {
      Undelta(a, n);
    }
  }
}
