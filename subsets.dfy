/** Enumeration of every subset of a finite set by counting through bit masks:
    the number `i` in `0 .. 2^n - 1` stands for the subset holding the `k`-th
    element exactly when bit `k` of `i` is set. */
module Subsets {
  import opened Graphs

  function Pow2(n: nat): (r: nat)
    ensures r >= 1
  {
    if n == 0 then 1 else 2 * Pow2(n - 1)
  }

  /** The subset of `s` that the bit mask `i` selects: `s[k]` belongs to it
      exactly when bit `k` of `i` is set. */
  ghost function MaskSet<T>(s: seq<T>, i: nat): (r: set<T>)
    decreases |s|
  {
    if s == [] then {}
    else (if i % 2 == 1 then {s[0]} else {}) + MaskSet(s[1..], i / 2)
  }

  /** The mask whose bits mark the members of `x` among the elements of `s`. */
  ghost function MaskOf<T>(s: seq<T>, x: set<T>): (r: nat)
    decreases |s|
  {
    if s == [] then 0
    else (if s[0] in x then 1 else 0) + 2 * MaskOf(s[1..], x - {s[0]})
  }

  lemma {:induction false} MaskSetWithin<T>(s: seq<T>, i: nat)
    ensures MaskSet(s, i) <= Elems(s)
    decreases |s|
  {
    if s != [] {
      MaskSetWithin(s[1..], i / 2);
      assert Elems(s[1..]) <= Elems(s);
    }
  }

  lemma {:induction false} MaskSetZero<T>(s: seq<T>)
    ensures MaskSet(s, 0) == {}
    decreases |s|
  {
    if s != [] {
      MaskSetZero(s[1..]);
    }
  }

  /** Over distinct elements, different masks below `2^|s|` select different subsets. */
  lemma {:induction false} MaskSetInjective<T>(s: seq<T>, i: nat, j: nat)
    requires Distinct(s)
    requires i < Pow2(|s|) && j < Pow2(|s|)
    ensures MaskSet(s, i) == MaskSet(s, j) <==> i == j
    decreases |s|
  {
    if s != [] {
      var t := s[1..];
      assert Distinct(t);
      assert s[0] !in Elems(t);
      MaskSetWithin(t, i / 2);
      MaskSetWithin(t, j / 2);
      assert s[0] in MaskSet(s, i) <==> i % 2 == 1;
      assert s[0] in MaskSet(s, j) <==> j % 2 == 1;
      assert MaskSet(t, i / 2) == MaskSet(s, i) - {s[0]};
      assert MaskSet(t, j / 2) == MaskSet(s, j) - {s[0]};
      MaskSetInjective(t, i / 2, j / 2);
      assert i == 2 * (i / 2) + i % 2 && j == 2 * (j / 2) + j % 2;
    }
  }

  /** Over distinct elements, every subset is selected by some mask below `2^|s|`. */
  lemma {:induction false} MaskOfSelects<T>(s: seq<T>, x: set<T>)
    requires Distinct(s)
    requires x <= Elems(s)
    ensures MaskOf(s, x) < Pow2(|s|)
    ensures MaskSet(s, MaskOf(s, x)) == x
    decreases |s|
  {
    if s != [] {
      var t := s[1..];
      var y := x - {s[0]};
      assert Distinct(t);
      assert Elems(s) == {s[0]} + Elems(t);
      assert y <= Elems(t);
      MaskOfSelects(t, y);
      var b := if s[0] in x then 1 else 0;
      var m := b + 2 * MaskOf(t, y);
      assert m % 2 == b && m / 2 == MaskOf(t, y);
      assert MaskSet(s, m) == (if b == 1 then {s[0]} else {}) + y;
    }
  }

  /** All subsets of the distinct elements `s`, the empty one only when
      `includeEmpty` holds: `2^|s|` of them, or `2^|s| - 1`, none twice. */
  method FindAllSubsets<T(==)>(s: seq<T>, includeEmpty: bool) returns (res: seq<set<T>>)
    requires Distinct(s)
    ensures |res| == if includeEmpty then Pow2(|s|) else Pow2(|s|) - 1
    ensures Distinct(res)
    ensures forall x :: x in res ==> x <= Elems(s)
    ensures forall x :: x <= Elems(s) ==> (x in res <==> x != {} || includeEmpty)
  {
    res := [];
    ghost var lo := if includeEmpty then 0 else 1;
    for i := 0 to Pow2(|s|)
      invariant |res| == if i == 0 then 0 else i - lo
      invariant forall p :: 0 <= p < |res| ==> res[p] == MaskSet(s, p + lo)
    {
      var subset: set<T> := {};
      var allFalse := true;
      var j: nat := i;  // i shifted right by k bits
      for k := 0 to |s|
        invariant MaskSet(s, i) == subset + MaskSet(s[k..], j)
        invariant allFalse <==> subset == {}
      {
        assert s[k..][1..] == s[k + 1..];
        if j % 2 == 1 {
          subset := subset + {s[k]};
          allFalse := false;
        }
        j := j / 2;
      }
      assert s[|s|..] == [];
      if allFalse && !includeEmpty {
        MaskSetZero(s);
        MaskSetInjective(s, i, 0);
        continue;
      }
      if i == 0 {
        MaskSetZero(s);
      }
      res := res + [subset];
    }
    forall p, q | 0 <= p < q < |res|
      ensures res[p] != res[q]
    {
      MaskSetInjective(s, p + lo, q + lo);
    }
    forall x | x in res
      ensures x <= Elems(s)
    {
      var p :| 0 <= p < |res| && res[p] == x;
      MaskSetWithin(s, p + lo);
    }
    forall x | x <= Elems(s)
      ensures x in res <==> x != {} || includeEmpty
    {
      MaskSetZero(s);
      if x != {} || includeEmpty {
        MaskOfSelects(s, x);
        var m := MaskOf(s, x);
        assert m >= lo;
        assert res[m - lo] == x;
      }
      if x in res && !includeEmpty {
        var p :| 0 <= p < |res| && res[p] == x;
        MaskSetInjective(s, p + lo, 0);
      }
    }
  }
}
