/** Shuffling in place by exchanges from the top down; `draw` stands for the random generator. */
module Shuffle {

  function Exchanged(s: seq<nat>, i: nat, j: nat): (r: seq<nat>)
    requires i < |s| && j < |s|
    ensures |r| == |s|
  {
    s[i := s[j]][j := s[i]]
  }

  /** A draw brought below `n`; one that is already there stays. */
  function Below(drawn: nat, n: nat): (j: nat)
    requires n > 0
    ensures j < n && (drawn < n ==> j == drawn)
  {
    if drawn < n then drawn else drawn % n
  }

  /** The positions below `n` shuffled, each exchanged with a drawn one at or below it. */
  function Shuffled(s: seq<nat>, draw: nat -> nat, n: nat): (r: seq<nat>)
    requires n <= |s|
    ensures |r| == |s|
    decreases n
  {
    if n <= 1 then s else Shuffled(Exchanged(s, n - 1, Below(draw(n - 1), n)), draw, n - 1)
  }

  lemma ExchangeKeepsAll(s: seq<nat>, i: nat, j: nat)
    requires i < |s| && j < |s|
    ensures multiset(Exchanged(s, i, j)) == multiset(s)
  {
  }

  /** A shuffle rearranges. */
  lemma {:induction false} ShuffleKeepsAll(s: seq<nat>, draw: nat -> nat, n: nat)
    requires n <= |s|
    ensures multiset(Shuffled(s, draw, n)) == multiset(s)
    decreases n
  {
    if n > 1 {
      ExchangeKeepsAll(s, n - 1, Below(draw(n - 1), n));
      ShuffleKeepsAll(Exchanged(s, n - 1, Below(draw(n - 1), n)), draw, n - 1);
    }
  }

  lemma {:induction false} DrawsBelow(s: seq<nat>, draw: nat -> nat, other: nat -> nat, n: nat)
    requires n <= |s| && forall k :: 0 <= k < n ==> draw(k) == other(k)
    ensures Shuffled(s, draw, n) == Shuffled(s, other, n)
    decreases n
  {
    if n > 1 {
      DrawsBelow(Exchanged(s, n - 1, Below(draw(n - 1), n)), draw, other, n - 1);
    }
  }

  /** Tables that agree from `n` on hold the same values below it. */
  lemma SameBelow(s: seq<nat>, t: seq<nat>, n: nat)
    requires n <= |s| == |t| && multiset(s) == multiset(t) && s[n..] == t[n..]
    ensures multiset(s[..n]) == multiset(t[..n])
  {
    assert s == s[..n] + s[n..] && t == t[..n] + t[n..];
    assert multiset(s) == multiset(s[..n]) + multiset(s[n..]);
    assert multiset(t) == multiset(t[..n]) + multiset(s[n..]);
    forall x ensures multiset(s[..n])[x] == multiset(t[..n])[x] {
      assert multiset(s)[x] == multiset(s[..n])[x] + multiset(s[n..])[x];
    }
  }

  lemma FindBelow(s: seq<nat>, t: seq<nat>, n: nat) returns (j: nat)
    requires 0 < n <= |s| == |t| && multiset(s) == multiset(t) && s[n..] == t[n..]
    ensures j < n && s[j] == t[n - 1]
  {
    SameBelow(s, t, n);
    assert t[..n][n - 1] == t[n - 1];
    assert t[n - 1] in multiset(t[..n]);
    assert t[n - 1] in s[..n];
    j :| 0 <= j < n && s[..n][j] == t[n - 1];
  }

  lemma ExchangeFixes(s: seq<nat>, t: seq<nat>, n: nat, j: nat)
    requires j < n <= |s| == |t| && s[j] == t[n - 1] && s[n..] == t[n..]
    ensures Exchanged(s, n - 1, j)[n - 1..] == t[n - 1..]
  {
    var r := Exchanged(s, n - 1, j);
    forall k | n - 1 <= k < |s| ensures r[k] == t[k] {
      if k >= n {
        assert s[n..][k - n] == t[n..][k - n];
      }
    }
  }

  /** The draws `rest`, but `j` at position `i`. */
  function WithDraw(rest: nat -> nat, i: nat, j: nat): nat -> nat {
    (k: nat) => if k == i then j else rest(k)
  }

  lemma DrawnFirst(s: seq<nat>, rest: nat -> nat, n: nat, j: nat)
    requires 1 < n <= |s| && j < n
    ensures Shuffled(s, WithDraw(rest, n - 1, j), n) == Shuffled(Exchanged(s, n - 1, j), rest, n - 1)
  {
    DrawsBelow(Exchanged(s, n - 1, j), WithDraw(rest, n - 1, j), rest, n - 1);
  }

  lemma OneLeft(s: seq<nat>, t: seq<nat>, n: nat)
    requires n <= 1 && n <= |s| == |t| && multiset(s) == multiset(t) && s[n..] == t[n..]
    ensures s == t
  {
    if n == 1 {
      var j := FindBelow(s, t, 1);
      assert s == [s[0]] + s[1..] && t == [t[0]] + t[1..];
    } else {
      assert s == s[0..] && t == t[0..];
    }
  }

  /** The same values, and agreement from `n` on. */
  ghost predicate InLine(s: seq<nat>, t: seq<nat>, n: nat) {
    n <= |s| == |t| && multiset(s) == multiset(t) && s[n..] == t[n..]
  }

  /** Some draws turn `s` into `t`. */
  ghost predicate ComesOut(s: seq<nat>, t: seq<nat>, n: nat)
    requires n <= |s|
  {
    exists draw: nat -> nat :: Shuffled(s, draw, n) == t
  }

  /** `r` is `s` with one exchange. */
  ghost predicate OneExchange(s: seq<nat>, r: seq<nat>, n: nat, j: nat) {
    j < n <= |s| && r == Exchanged(s, n - 1, j)
  }

  /** One exchange brings position n - 1 in line. */
  lemma FixOne(s: seq<nat>, t: seq<nat>, n: nat) returns (j: nat, r: seq<nat>)
    requires 1 < n && InLine(s, t, n)
    ensures OneExchange(s, r, n, j) && InLine(r, t, n - 1)
  {
    j := FindBelow(s, t, n);
    r := Exchanged(s, n - 1, j);
    ExchangeFixes(s, t, n, j);
    ExchangeKeepsAll(s, n - 1, j);
  }

  lemma ComesOutNow(s: seq<nat>, t: seq<nat>, n: nat)
    requires n <= 1 && InLine(s, t, n)
    ensures ComesOut(s, t, n)
  {
    OneLeft(s, t, n);
    assert Shuffled(s, k => 0, n) == t;
  }

  lemma ComesOutLater(s: seq<nat>, r: seq<nat>, t: seq<nat>, n: nat, j: nat)
    requires 1 < n && OneExchange(s, r, n, j) && ComesOut(r, t, n - 1)
    ensures ComesOut(s, t, n)
  {
    var rest: nat -> nat :| Shuffled(r, rest, n - 1) == t;
    DrawnFirst(s, rest, n, j);
  }

  /** Every order can come out of a shuffle. */
  lemma {:induction false} EveryOrderCanComeOut(s: seq<nat>, t: seq<nat>, n: nat)
    requires InLine(s, t, n)
    ensures ComesOut(s, t, n)
    decreases n
  {
    if n <= 1 {
      ComesOutNow(s, t, n);
    } else {
      var j, r := FixOne(s, t, n);
      EveryOrderCanComeOut(r, t, n - 1);
      ComesOutLater(s, r, t, n, j);
    }
  }

  /** The generator's shuffle, in place. */
  method ShuffleInPlace(a: array<nat>, draw: nat -> nat)
    modifies a
    ensures a[..] == Shuffled(old(a[..]), draw, a.Length)
  {
    ghost var now := a[..];
    var n := a.Length;
    while n > 1
      invariant 0 <= n <= a.Length == |now| && a[..] == now
      invariant Shuffled(now, draw, n) == Shuffled(old(a[..]), draw, a.Length)
    {
      var j := Below(draw(n - 1), n);
      a[n - 1], a[j] := a[j], a[n - 1];
      now := Exchanged(now, n - 1, j);
      n := n - 1;
    }
  }
}
