/** Options, and lists without repetition. */
module Lists {

  datatype Option<+T> = None | Some(value: T)

  predicate Distinct<T(==)>(s: seq<T>) {
    forall i, j :: 0 <= i < j < |s| ==> s[i] != s[j]
  }

  function Members(s: seq<nat>): set<nat> {
    set n | n in s
  }

  /** The numbers below `n`, in order. */
  function Indices(n: nat): (s: seq<nat>)
    ensures |s| == n && forall i :: 0 <= i < n ==> s[i] == i
  {
    if n == 0 then [] else Indices(n - 1) + [n - 1]
  }

  lemma RangeSize(s: set<nat>, n: nat)
    requires forall k :: k in s ==> k < n
    ensures |s| <= n
  {
    if n == 0 {
      assert s == {};
    } else {
      RangeSize(s - {n - 1}, n - 1);
    }
  }

  lemma {:induction false} SetOfDistinct(s: seq<nat>)
    ensures |Members(s)| <= |s|
    ensures Distinct(s) <==> |Members(s)| == |s|
  {
    if s == [] {
      assert Members(s) == {};
    } else {
      var n := |s| - 1;
      var init := s[..n];
      SetOfDistinct(init);
      assert s == init + [s[n]];
      assert Members(s) == Members(init) + {s[n]};
      if s[n] in init {
        var i :| 0 <= i < n && init[i] == s[n];
        assert s[i] == s[n];
      } else {
        assert Distinct(init) ==> Distinct(s);
      }
    }
  }

  lemma DistinctIsBounded(s: seq<nat>, n: nat)
    requires Distinct(s) && forall i :: 0 <= i < |s| ==> s[i] < n
    ensures |s| <= n
  {
    SetOfDistinct(s);
    RangeSize(Members(s), n);
  }
}
