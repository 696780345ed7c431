/** Boolean-mask selection from a table, and what it keeps of the table's order. */
module Selection {

  /** Boolean-mask selection, in order. */
  function Select<T(!new)>(keep: T -> bool, s: seq<T>): (r: seq<T>)
    ensures |r| <= |s|
  {
    if s == [] then []
    else
      var n := |s| - 1;
      if keep(s[n]) then Select(keep, s[..n]) + [s[n]] else Select(keep, s[..n])
  }

  lemma {:induction false} SelectMembers<T(!new)>(keep: T -> bool, s: seq<T>)
    ensures forall x :: x in Select(keep, s) <==> x in s && keep(x)
  {
    if s != [] {
      var n := |s| - 1;
      assert s == s[..n] + [s[n]];
      SelectMembers(keep, s[..n]);
    }
  }

  /** Every row relates to every later row. */
  ghost predicate Pairwise<T(!new)>(rel: (T, T) -> bool, s: seq<T>) {
    forall i, j :: 0 <= i < j < |s| ==> rel(s[i], s[j])
  }

  /** A mask leaves the remaining rows in their order. */
  lemma {:induction false} SelectKeepsPairwise<T(!new)>(rel: (T, T) -> bool, keep: T -> bool, s: seq<T>)
    requires Pairwise(rel, s)
    ensures Pairwise(rel, Select(keep, s))
  {
    if s != [] {
      var n := |s| - 1;
      SelectKeepsPairwise(rel, keep, s[..n]);
      var before := Select(keep, s[..n]);
      SelectMembers(keep, s[..n]);
      forall i | 0 <= i < |before| ensures rel(before[i], s[n]) {
        assert before[i] in s[..n];
        var k :| 0 <= k < n && s[k] == before[i];
      }
    }
  }

  /** Masks on two tables of the same length that agree position by position keep equally many rows. */
  lemma {:induction false} SameMaskSameCount<T(!new), U(!new)>(p: T -> bool, s: seq<T>, q: U -> bool, t: seq<U>)
    requires |s| == |t| && forall i :: 0 <= i < |s| ==> p(s[i]) == q(t[i])
    ensures |Select(p, s)| == |Select(q, t)|
  {
    if s != [] {
      var n := |s| - 1;
      SameMaskSameCount(p, s[..n], q, t[..n]);
      assert p(s[n]) == q(t[n]);
    }
  }

  /** A mask after a mask is the mask of both. */
  lemma {:induction false} SelectInTurn<T(!new)>(p: T -> bool, q: T -> bool, both: T -> bool, s: seq<T>)
    requires forall x :: both(x) <==> q(x) && p(x)
    ensures Select(p, Select(q, s)) == Select(both, s)
  {
    if s != [] {
      var n := |s| - 1;
      SelectInTurn(p, q, both, s[..n]);
      var kept := Select(q, s[..n]);
      if q(s[n]) {
        assert (kept + [s[n]])[..|kept|] == kept;
      } else {
        assert Select(q, s) == kept;
      }
    }
  }

  lemma {:induction false} SelectMultiplicity<T(!new)>(p: T -> bool, s: seq<T>, x: T)
    ensures multiset(Select(p, s))[x] == if p(x) then multiset(s)[x] else 0
  {
    if s != [] {
      var n := |s| - 1;
      SelectMultiplicity(p, s[..n], x);
      assert s == s[..n] + [s[n]];
    }
  }

  /** How many rows a mask keeps does not depend on their order. */
  lemma CountOfPermuted<T(!new)>(p: T -> bool, s: seq<T>, t: seq<T>)
    requires multiset(s) == multiset(t)
    ensures |Select(p, s)| == |Select(p, t)|
  {
    var a, b := Select(p, s), Select(p, t);
    forall x ensures multiset(a)[x] == multiset(b)[x] {
      SelectMultiplicity(p, s, x);
      SelectMultiplicity(p, t, x);
    }
    assert multiset(a) == multiset(b);
    assert |multiset(a)| == |a| && |multiset(b)| == |b|;
  }

  /** Rows fall under `p` when they fall under `q` or under `r`, never both. */
  lemma {:induction false} CountsAdd<T(!new)>(p: T -> bool, q: T -> bool, r: T -> bool, s: seq<T>)
    requires forall i :: 0 <= i < |s| ==> p(s[i]) == (q(s[i]) || r(s[i])) && !(q(s[i]) && r(s[i]))
    ensures |Select(p, s)| == |Select(q, s)| + |Select(r, s)|
  {
    if s != [] {
      var n := |s| - 1;
      CountsAdd(p, q, r, s[..n]);
      assert p(s[n]) == (q(s[n]) || r(s[n]));
    }
  }

  lemma {:induction false} AllKept<T(!new)>(p: T -> bool, s: seq<T>)
    requires forall i :: 0 <= i < |s| ==> p(s[i])
    ensures Select(p, s) == s
  {
    if s != [] {
      var n := |s| - 1;
      AllKept(p, s[..n]);
      assert p(s[n]);
    }
  }
}
