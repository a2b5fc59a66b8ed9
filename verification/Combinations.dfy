/** The k-element combinations of the indices lo..n, in the order in which they are visited. */
module Combinations {

  function Prepend(x: nat, cs: seq<seq<nat>>): (r: seq<seq<nat>>)
    ensures |r| == |cs| && forall i | 0 <= i < |cs| :: r[i] == [x] + cs[i]
  {
    seq(|cs|, i requires 0 <= i < |cs| => [x] + cs[i])
  }

  function Combos(lo: nat, n: nat, k: nat): seq<seq<nat>>
    decreases n - lo
  {
    if k == 0 then [[]]
    else if lo + k > n then []
    else Prepend(lo, Combos(lo + 1, n, k - 1)) + Combos(lo + 1, n, k)
  }

  /** A combination: indices within lo..n, strictly increasing. */
  predicate Increasing(c: seq<nat>, lo: nat, n: nat) {
    && (forall i | 0 <= i < |c| :: lo <= c[i] < n)
    && (forall i, j | 0 <= i < j < |c| :: c[i] < c[j])
  }

  lemma IncreasingCons(x: nat, c: seq<nat>, lo: nat, n: nat)
    ensures Increasing([x] + c, lo, n) <==> lo <= x < n && Increasing(c, x + 1, n)
  {
    var d := [x] + c;
    if Increasing(d, lo, n) {
      assert d[0] == x;
      forall i | 0 <= i < |c| ensures x < c[i] < n { assert d[i + 1] == c[i]; }
      forall i, j | 0 <= i < j < |c| ensures c[i] < c[j] { assert d[i + 1] == c[i] && d[j + 1] == c[j]; }
    }
    if lo <= x < n && Increasing(c, x + 1, n) {
      forall i, j | 0 <= i < j < |d| ensures d[i] < d[j] {
        assert d[j] == c[j - 1];
        if i > 0 { assert d[i] == c[i - 1]; }
      }
    }
  }

  lemma IncreasingSpan(c: seq<nat>, lo: nat, n: nat)
    requires Increasing(c, lo, n)
    ensures c != [] ==> lo + |c| <= n
  {
    if c != [] {
      assert c == [c[0]] + c[1..];
      IncreasingCons(c[0], c[1..], lo, n);
      IncreasingSpan(c[1..], c[0] + 1, n);
    }
  }

  /** Every combination is listed, and nothing else. */
  lemma {:induction false} CombosComplete(lo: nat, n: nat, k: nat, c: seq<nat>)
    ensures c in Combos(lo, n, k) <==> |c| == k && Increasing(c, lo, n)
    decreases n - lo
  {
    hide Increasing;
    if k == 0 {
      assert c in [[]] <==> c == [];
      NothingIncreases(lo, n);
    } else if lo + k > n {
      if |c| == k && Increasing(c, lo, n) { IncreasingSpan(c, lo, n); }
    } else {
      CombosComplete(lo + 1, n, k, c);
      if c != [] {
        CombosComplete(lo + 1, n, k - 1, c[1..]);
        InPrepend(lo, Combos(lo + 1, n, k - 1), c);
        IncreasingSplit(c, lo, n);
      }
    }
  }

  lemma NothingIncreases(lo: nat, n: nat)
    ensures Increasing([], lo, n)
  {
  }

  /** A combination either starts with lo or avoids it. */
  lemma IncreasingSplit(c: seq<nat>, lo: nat, n: nat)
    requires c != []
    ensures Increasing(c, lo, n) <==> Increasing(c, lo + 1, n) || (c[0] == lo < n && Increasing(c[1..], lo + 1, n))
  {
    assert c == [c[0]] + c[1..];
    IncreasingCons(c[0], c[1..], lo, n);
    IncreasingCons(c[0], c[1..], lo + 1, n);
  }

  lemma InPrepend(x: nat, cs: seq<seq<nat>>, c: seq<nat>)
    requires c != []
    ensures c in Prepend(x, cs) <==> c[0] == x && c[1..] in cs
  {
    if c[0] == x && c[1..] in cs {
      var i :| 0 <= i < |cs| && cs[i] == c[1..];
      assert Prepend(x, cs)[i] == c;
    }
    if c in Prepend(x, cs) {
      var i :| 0 <= i < |cs| && Prepend(x, cs)[i] == c;
      assert c[1..] == cs[i];
    }
  }

  /** Lexicographic order on sequences of the same length. */
  predicate LexLess(a: seq<nat>, b: seq<nat>) {
    a != [] && b != [] && (a[0] < b[0] || (a[0] == b[0] && LexLess(a[1..], b[1..])))
  }

  lemma {:induction false} LexLessIrreflexive(a: seq<nat>)
    ensures !LexLess(a, a)
  {
    if a != [] { LexLessIrreflexive(a[1..]); }
  }

  ghost predicate LexAscending(cs: seq<seq<nat>>) {
    forall i, j | 0 <= i < j < |cs| :: LexLess(cs[i], cs[j])
  }

  lemma PrependAscends(x: nat, cs: seq<seq<nat>>)
    requires LexAscending(cs)
    ensures LexAscending(Prepend(x, cs))
  {
  }

  /** The list ascends strictly in lexicographic order, so no combination is listed twice. */
  lemma {:induction false} CombosAscend(lo: nat, n: nat, k: nat)
    ensures LexAscending(Combos(lo, n, k))
    decreases n - lo
  {
    if k > 0 && lo + k <= n {
      var with, without := Combos(lo + 1, n, k - 1), Combos(lo + 1, n, k);
      CombosAscend(lo + 1, n, k - 1);
      CombosAscend(lo + 1, n, k);
      PrependAscends(lo, with);
      forall i, j | 0 <= i < |with| && 0 <= j < |without|
        ensures LexLess(Prepend(lo, with)[i], without[j])
      {
        CombosComplete(lo + 1, n, k, without[j]);
      }
    }
  }

  function Binomial(n: nat, k: nat): nat {
    if k == 0 then 1 else if n == 0 then 0 else Binomial(n - 1, k - 1) + Binomial(n - 1, k)
  }

  lemma {:induction false} BinomialVanishes(n: nat, k: nat)
    requires k > n
    ensures Binomial(n, k) == 0
  {
    if n > 0 {
      BinomialVanishes(n - 1, k - 1);
      BinomialVanishes(n - 1, k);
    }
  }

  lemma {:induction false} CombosCount(lo: nat, n: nat, k: nat)
    requires lo <= n
    ensures |Combos(lo, n, k)| == Binomial(n - lo, k)
    decreases n - lo
  {
    if k > 0 && lo + k > n {
      BinomialVanishes(n - lo, k);
    } else if k > 0 {
      CombosCount(lo + 1, n, k - 1);
      CombosCount(lo + 1, n, k);
    }
  }

  /** The elements at the given indices. */
  function Select<T>(s: seq<T>, c: seq<nat>): (r: seq<T>)
    requires forall i | 0 <= i < |c| :: c[i] < |s|
    ensures |r| == |c| && forall i | 0 <= i < |c| :: r[i] == s[c[i]]
  {
    seq(|c|, i requires 0 <= i < |c| => s[c[i]])
  }

  /** Every sub-collection without repetition is, in some order, one of the combinations. */
  lemma {:induction false} SubsetIsCombination<T>(s: seq<T>, picks: seq<T>) returns (c: seq<nat>)
    requires forall p | p in picks :: p in s
    requires forall i, j | 0 <= i < j < |s| :: s[i] != s[j]
    requires forall i, j | 0 <= i < j < |picks| :: picks[i] != picks[j]
    ensures Increasing(c, 0, |s|) && |c| == |picks|
    ensures multiset(Select(s, c)) == multiset(picks)
  {
    c := Positions(s, picks, 0);
    var chosen := Select(s, c);
    forall x
      ensures multiset(chosen)[x] == multiset(picks)[x]
    {
      OnceAtMost(picks, x);
      assert forall i, j | 0 <= i < j < |chosen| :: chosen[i] != chosen[j];
      OnceAtMost(chosen, x);
      if x in picks {
        var q :| 0 <= q < |s| && s[q] == x;
        assert q in c;
        var i :| 0 <= i < |c| && c[i] == q;
        assert chosen[i] == x;
      }
    }
    assert multiset(chosen) == multiset(picks);
    assert |multiset(chosen)| == |chosen| && |multiset(picks)| == |picks|;
  }

  lemma Positions<T>(s: seq<T>, picks: seq<T>, lo: nat) returns (c: seq<nat>)
    requires lo <= |s|
    ensures Increasing(c, lo, |s|)
    ensures forall q | lo <= q < |s| :: q in c <==> s[q] in picks
    decreases |s| - lo
  {
    if lo == |s| {
      c := [];
    } else {
      var rest := Positions(s, picks, lo + 1);
      c := if s[lo] in picks then [lo] + rest else rest;
      if s[lo] in picks { IncreasingCons(lo, rest, lo, |s|); }
    }
  }

  lemma {:induction false} OnceAtMost<T>(s: seq<T>, x: T)
    requires forall i, j | 0 <= i < j < |s| :: s[i] != s[j]
    ensures multiset(s)[x] == if x in s then 1 else 0
  {
    if s != [] {
      OnceAtMost(s[1..], x);
      assert s == [s[0]] + s[1..];
    }
  }
}
