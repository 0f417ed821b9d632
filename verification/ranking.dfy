/**
 The order candidates are ranked in, and "sort everything, take the first R": the simple
 form the bounded heap must agree with.
 */
module Ranking {
  import opened Options

  datatype Candidate = Candidate(score: int, id: nat)

  /** Lower score is worse; on a tie the higher id is worse. */
  predicate Worse(a: Candidate, b: Candidate) {
    a.score < b.score || (a.score == b.score && a.id > b.id)
  }

  /** Best first. */
  ghost predicate Sorted(s: seq<Candidate>) {
    forall i, j :: 0 <= i < j < |s| ==> !Worse(s[i], s[j])
  }

  /** `c` into its place, after its equals. */
  function Insert(c: Candidate, s: seq<Candidate>): (r: seq<Candidate>)
    ensures |r| == |s| + 1
  {
    if s == [] then [c]
    else if Worse(s[0], c) then [c] + s
    else [s[0]] + Insert(c, s[1..])
  }

  /** All of `s`, best first. */
  function Ranked(s: seq<Candidate>): (r: seq<Candidate>)
    ensures |r| == |s|
  {
    if s == [] then [] else Insert(s[|s| - 1], Ranked(s[..|s| - 1]))
  }

  function Min(a: nat, b: nat): nat {
    if a <= b then a else b
  }

  /** The first `r` of all of `s`, or all of them. */
  function Top(r: nat, s: seq<Candidate>): (t: seq<Candidate>)
    ensures |t| == Min(r, |s|)
  {
    Ranked(s)[..Min(r, |s|)]
  }

  // ---------------------------------------------------------------- insertion

  lemma {:induction false} InsertContents(c: Candidate, s: seq<Candidate>)
    ensures multiset(Insert(c, s)) == multiset(s) + multiset{c}
  {
    if s != [] {
      assert s == [s[0]] + s[1..];
      InsertContents(c, s[1..]);
    }
  }

  lemma {:induction false} InsertMembers(c: Candidate, s: seq<Candidate>, j: nat)
    requires j <= |s|
    ensures Insert(c, s)[j] == c || Insert(c, s)[j] in s
  {
    hide Worse;
    if s != [] && !Worse(s[0], c) && j > 0 {
      InsertMembers(c, s[1..], j - 1);
    }
  }

  lemma SortedCons(x: Candidate, s: seq<Candidate>)
    requires Sorted(s) && forall j :: 0 <= j < |s| ==> !Worse(x, s[j])
    ensures Sorted([x] + s)
  {
    hide Worse;
  }

  /** What beats the first of a sorted list is worse than none of it. */
  lemma BeatsAll(c: Candidate, s: seq<Candidate>)
    requires Sorted(s) && s != [] && Worse(s[0], c)
    ensures forall j :: 0 <= j < |s| ==> !Worse(c, s[j])
  {
    forall j | 0 <= j < |s|
      ensures !Worse(c, s[j])
    {
      assert j > 0 ==> !Worse(s[0], s[j]);
    }
  }

  lemma {:induction false} InsertSorted(c: Candidate, s: seq<Candidate>)
    requires Sorted(s)
    ensures Sorted(Insert(c, s))
  {
    hide Worse;
    if s == [] {
      SortedCons(c, []);
    } else if Worse(s[0], c) {
      BeatsAll(c, s);
      SortedCons(c, s);
    } else {
      var t := Insert(c, s[1..]);
      InsertSorted(c, s[1..]);
      forall j | 0 <= j < |t|
        ensures !Worse(s[0], t[j])
      {
        InsertMembers(c, s[1..], j);
      }
      SortedCons(s[0], t);
    }
  }

  lemma {:induction false} RankedSpec(s: seq<Candidate>)
    ensures Sorted(Ranked(s)) && multiset(Ranked(s)) == multiset(s)
  {
    if s != [] {
      var n := |s| - 1;
      assert s == s[..n] + [s[n]];
      RankedSpec(s[..n]);
      InsertSorted(s[n], Ranked(s[..n]));
      InsertContents(s[n], Ranked(s[..n]));
    }
  }

  /** In a sorted list the last entry is the one nothing is worse than. */
  lemma LastIsWorst(l: seq<Candidate>, c: Candidate)
    requires Sorted(l) && l != [] && c in multiset(l)
    requires forall x :: x in multiset(l) ==> !Worse(x, c)
    ensures l[|l| - 1] == c
  {
    var i :| 0 <= i < |l| && l[i] == c;
    var w := l[|l| - 1];
    assert w in multiset(l);
    assert i < |l| - 1 ==> !Worse(l[i], w);
  }

  lemma DropLast(l: seq<Candidate>)
    requires l != []
    ensures multiset(l[..|l| - 1]) == multiset(l) - multiset{l[|l| - 1]}
  {
    assert l == l[..|l| - 1] + [l[|l| - 1]];
  }

  lemma SameLast(a: seq<Candidate>, b: seq<Candidate>)
    requires Sorted(a) && Sorted(b) && multiset(a) == multiset(b) && a != []
    ensures |b| == |a| && a[|a| - 1] == b[|b| - 1]
  {
    assert |multiset(b)| == |a|;
    var c := a[|a| - 1];
    forall x | x in multiset(a)
      ensures !Worse(x, c)
    {
      var i :| 0 <= i < |a| && a[i] == x;
    }
    assert c in multiset(a);
    LastIsWorst(b, c);
  }

  lemma SortedPrefix(a: seq<Candidate>, n: nat)
    requires Sorted(a) && n <= |a|
    ensures Sorted(a[..n])
  {}

  /** Sorted listings of one multiset share their last entry, and the multiset of the rest. */
  lemma SameRest(a: seq<Candidate>, b: seq<Candidate>)
    requires Sorted(a) && Sorted(b) && multiset(a) == multiset(b) && a != []
    ensures |b| == |a| && a[|a| - 1] == b[|b| - 1]
    ensures multiset(a[..|a| - 1]) == multiset(b[..|b| - 1])
  {
    hide Sorted;
    SameLast(a, b);
    DropLast(a);
    DropLast(b);
  }

  lemma NothingListed(b: seq<Candidate>)
    requires multiset(b) == multiset{}
    ensures b == []
  {
    assert |multiset(b)| == 0;
  }

  lemma SplitLast(a: seq<Candidate>)
    requires a != []
    ensures a == a[..|a| - 1] + [a[|a| - 1]]
  {}

  /** A multiset has one sorted listing. */
  lemma {:induction false} SortedUnique(a: seq<Candidate>, b: seq<Candidate>)
    requires Sorted(a) && Sorted(b) && multiset(a) == multiset(b)
    ensures a == b
    decreases |a|
  {
    hide Sorted;
    if a == [] {
      NothingListed(b);
    } else {
      var n := |a| - 1;
      SameRest(a, b);
      SortedPrefix(a, n);
      SortedPrefix(b, n);
      SortedUnique(a[..n], b[..n]);
      SplitLast(a);
      SplitLast(b);
    }
  }

  // ---------------------------------------------------------------- the best, read off scores and ids

  /** Everything kept has a higher score than everything left out, or the same score and no higher an id. */
  ghost predicate Keeps(kept: multiset<Candidate>, all: multiset<Candidate>) {
    && kept <= all
    && forall x, c :: x in kept && c in all - kept ==> x.score > c.score || (x.score == c.score && x.id <= c.id)
  }

  /** `t` is the best of `s`: scores fall, ids rise among equal scores, and nothing left out should be in. */
  ghost predicate BestOf(t: seq<Candidate>, s: seq<Candidate>) {
    && Keeps(multiset(t), multiset(s))
    && forall i, j :: 0 <= i < j < |t| ==> t[i].score > t[j].score || (t[i].score == t[j].score && t[i].id <= t[j].id)
  }

  lemma CutContents(l: seq<Candidate>, n: nat)
    requires n <= |l|
    ensures multiset(l[..n]) <= multiset(l) && multiset(l) - multiset(l[..n]) == multiset(l[n..])
  {
    assert l == l[..n] + l[n..];
  }

  /** Of a sorted list, what precedes a cut is no worse than what follows it. */
  lemma CutOrders(l: seq<Candidate>, n: nat, x: Candidate, c: Candidate)
    requires Sorted(l) && n <= |l| && x in l[..n] && c in l[n..]
    ensures !Worse(x, c)
  {
    hide Worse;
    var i :| 0 <= i < n && l[i] == x;
    var k :| 0 <= k < |l| - n && l[n..][k] == c;
    assert l[n + k] == c;
  }

  lemma CutKeeps(l: seq<Candidate>, n: nat)
    requires Sorted(l) && n <= |l|
    ensures Keeps(multiset(l[..n]), multiset(l))
  {
    hide Sorted;
    var t, rest := l[..n], l[n..];
    CutContents(l, n);
    forall x, c | x in multiset(t) && c in multiset(rest)
      ensures !Worse(x, c)
    {
      CutOrders(l, n, x, c);
    }
  }

  lemma CutFalls(l: seq<Candidate>, n: nat, i: nat, j: nat)
    requires Sorted(l) && i < j < n <= |l|
    ensures l[i].score > l[j].score || (l[i].score == l[j].score && l[i].id <= l[j].id)
  {
    assert !Worse(l[i], l[j]);
  }

  /** Whatever precedes a cut of a sorted list is the best of the whole. */
  lemma PrefixIsBest(l: seq<Candidate>, n: nat)
    requires Sorted(l) && n <= |l|
    ensures BestOf(l[..n], l)
  {
    hide Sorted, Keeps;
    CutKeeps(l, n);
    forall i, j | 0 <= i < j < n
      ensures l[i].score > l[j].score || (l[i].score == l[j].score && l[i].id <= l[j].id)
    {
      CutFalls(l, n, i, j);
    }
  }

  /** The first `r` of all candidates ranked are the best `r` by score and id. */
  lemma TopIsBest(r: nat, s: seq<Candidate>)
    ensures BestOf(Top(r, s), s) && |Top(r, s)| == if r <= |s| then r else |s|
  {
    hide Sorted, Worse, BestOf;
    RankedSpec(s);
    PrefixIsBest(Ranked(s), Min(r, |s|));
    SameAll(Top(r, s), Ranked(s), s);
  }

  lemma SameAll(t: seq<Candidate>, l: seq<Candidate>, s: seq<Candidate>)
    requires BestOf(t, l) && multiset(l) == multiset(s)
    ensures BestOf(t, s)
  {
    hide Keeps;
  }

  // ---------------------------------------------------------------- offering to a bounded list

  /** A bounded sorted list takes `c` in, evicting its last entry only for a better one. */
  function Offer(r: nat, l: seq<Candidate>, c: Candidate): (seq<Candidate>, Option<Candidate>)
    requires r > 0 && |l| <= r
  {
    if |l| < r then (Insert(c, l), None)
    else if Worse(l[r - 1], c) then (Insert(c, l[..r - 1]), Some(l[r - 1]))
    else (l, None)
  }

  function OfferAll(r: nat, l: seq<Candidate>, s: seq<Candidate>): (t: seq<Candidate>)
    requires r > 0 && |l| <= r
    ensures |t| <= r
    decreases |s|
  {
    if s == [] then l else OfferAll(r, Offer(r, l, s[0]).0, s[1..])
  }

  lemma HeadInsert(c: Candidate, l: seq<Candidate>, r: nat)
    requires 0 < r <= |l| && Worse(l[0], c)
    ensures Insert(c, l)[..r] == Insert(c, l[..r - 1])
  {
    hide Worse;
    assert ([c] + l)[..r] == [c] + l[..r - 1];
    assert r > 1 ==> l[..r - 1][0] == l[0];
  }

  lemma TailInsert(c: Candidate, l: seq<Candidate>, r: nat)
    requires 1 < r <= |l| && !Worse(l[0], c)
    ensures Insert(c, l)[..r] == [l[0]] + Insert(c, l[1..])[..r - 1]
    ensures Insert(c, l[..r - 1]) == [l[0]] + Insert(c, l[1..][..r - 2])
    ensures l[..r] == [l[0]] + l[1..][..r - 1] && l[1..][r - 2] == l[r - 1]
  {
    hide Worse;
    assert l[..r - 1][0] == l[0] && l[..r - 1][1..] == l[1..][..r - 2];
  }

  /** Insertion before the cut pushes the last kept entry out; after it, nothing moves. */
  lemma {:induction false} InsertTake(c: Candidate, l: seq<Candidate>, r: nat)
    requires Sorted(l) && 0 < r <= |l|
    ensures Insert(c, l)[..r] == if Worse(l[r - 1], c) then Insert(c, l[..r - 1]) else l[..r]
  {
    if Worse(l[0], c) {
      assert Worse(l[r - 1], c);
      HeadInsert(c, l, r);
    } else if r > 1 {
      assert Sorted(l[1..]);
      InsertTake(c, l[1..], r - 1);
      TailInsert(c, l, r);
    }
  }

  lemma TopStep(r: nat, s: seq<Candidate>, c: Candidate)
    requires r > 0
    ensures Offer(r, Top(r, s), c).0 == Top(r, s + [c])
  {
    assert (s + [c])[..|s|] == s;
    RankedSpec(s);
    var l := Ranked(s);
    if |s| >= r {
      InsertTake(c, l, r);
      assert l[..r][..r - 1] == l[..r - 1];
    } else {
      assert l[..|s|] == l;
      assert Insert(c, l)[..|s| + 1] == Insert(c, l);
    }
  }

  /** Offering a whole stream to a bounded list keeps the best `r` of everything seen. */
  lemma {:induction false} OfferAllIsTop(r: nat, seen: seq<Candidate>, s: seq<Candidate>)
    requires r > 0
    ensures OfferAll(r, Top(r, seen), s) == Top(r, seen + s)
    decreases |s|
  {
    if s == [] {
      assert seen + s == seen;
    } else {
      TopStep(r, seen, s[0]);
      OfferAllIsTop(r, seen + [s[0]], s[1..]);
      assert seen + s == (seen + [s[0]]) + s[1..];
    }
  }

  lemma {:induction false} OfferAllConcat(r: nat, l: seq<Candidate>, a: seq<Candidate>, b: seq<Candidate>)
    requires r > 0 && |l| <= r
    ensures OfferAll(r, l, a + b) == OfferAll(r, OfferAll(r, l, a), b)
    decreases |a|
  {
    if a == [] {
      assert a + b == b;
    } else {
      assert (a + b)[1..] == a[1..] + b;
      OfferAllConcat(r, Offer(r, l, a[0]).0, a[1..], b);
    }
  }

  // ---------------------------------------------------------------- the depth law

  /** How many of `s` are strictly better than `c`. */
  function Better(c: Candidate, s: seq<Candidate>): nat {
    if s == [] then 0 else Better(c, s[..|s| - 1]) + if Worse(c, s[|s| - 1]) then 1 else 0
  }

  lemma {:induction false} BetterConcat(c: Candidate, a: seq<Candidate>, b: seq<Candidate>)
    ensures Better(c, a + b) == Better(c, a) + Better(c, b)
    decreases |b|
  {
    if b == [] {
      assert a + b == a;
    } else {
      assert (a + b)[..|a + b| - 1] == a + b[..|b| - 1];
      BetterConcat(c, a, b[..|b| - 1]);
    }
  }

  lemma {:induction false} BetterInsert(c: Candidate, x: Candidate, s: seq<Candidate>)
    ensures Better(c, Insert(x, s)) == Better(c, s) + if Worse(c, x) then 1 else 0
  {
    if s == [] {
      assert [x][..0] == [];
    } else if Worse(s[0], x) {
      BetterConcat(c, [x], s);
      assert [x][..0] == [];
    } else {
      BetterInsert(c, x, s[1..]);
      BetterConcat(c, [s[0]], s[1..]);
      BetterConcat(c, [s[0]], Insert(x, s[1..]));
      assert s == [s[0]] + s[1..];
    }
  }

  lemma {:induction false} BetterRanked(c: Candidate, s: seq<Candidate>)
    ensures Better(c, Ranked(s)) == Better(c, s)
  {
    if s != [] {
      BetterRanked(c, s[..|s| - 1]);
      BetterInsert(c, s[|s| - 1], Ranked(s[..|s| - 1]));
    }
  }

  /** In a sorted list, the entries better than `c` are exactly a prefix. */
  lemma {:induction false} BetterIsPrefix(c: Candidate, l: seq<Candidate>)
    requires Sorted(l)
    ensures Better(c, l) <= |l|
    ensures forall i :: 0 <= i < |l| ==> (Worse(c, l[i]) <==> i < Better(c, l))
    decreases |l|
  {
    if l != [] {
      var n := |l| - 1;
      BetterIsPrefix(c, l[..n]);
      if Worse(c, l[n]) {
        assert n > 0 ==> !Worse(l[n - 1], l[n]);
        assert n > 0 ==> Worse(c, l[..n][n - 1]);
      }
    }
  }

  /** `c` is among the best `r` of a stream holding it iff fewer than `r` entries beat it. */
  lemma InTopIffFewBetter(r: nat, s: seq<Candidate>, c: Candidate)
    requires c in s
    ensures c in Top(r, s) <==> Better(c, s) < r
  {
    var l := Ranked(s);
    RankedSpec(s);
    BetterRanked(c, s);
    BetterIsPrefix(c, l);
    assert c in multiset(l);
    var i :| 0 <= i < |l| && l[i] == c;
    var d := Better(c, l);
    assert d <= i;
    assert !Worse(c, l[d]);
    if d < i {
      assert !Worse(l[d], l[i]);
    }
    assert l[d] == c;
    if d < r {
      assert Top(r, s)[d] == c;
    }
  }

  // ---------------------------------------------------------------- what a full list lets in

  /** How many of `s` rank no worse than `c`: a higher score, or the same score and no higher an id. */
  function Ahead(c: Candidate, s: seq<Candidate>): (n: nat)
    ensures n <= |s|
  {
    if s == [] then 0
    else
      var x := s[|s| - 1];
      Ahead(c, s[..|s| - 1]) + if x.score > c.score || (x.score == c.score && x.id <= c.id) then 1 else 0
  }

  lemma AheadSnoc(c: Candidate, s: seq<Candidate>, x: Candidate)
    ensures Ahead(c, s + [x]) == Ahead(c, s) + if Worse(x, c) then 0 else 1
  {
    assert (s + [x])[..|s|] == s;
  }

  lemma {:induction false} AheadConcat(c: Candidate, a: seq<Candidate>, b: seq<Candidate>)
    ensures Ahead(c, a + b) == Ahead(c, a) + Ahead(c, b)
    decreases |b|
  {
    if b == [] {
      assert a + b == a;
    } else {
      assert (a + b)[..|a + b| - 1] == a + b[..|b| - 1];
      AheadConcat(c, a, b[..|b| - 1]);
    }
  }

  lemma {:induction false} AheadInsert(c: Candidate, x: Candidate, s: seq<Candidate>)
    ensures Ahead(c, Insert(x, s)) == Ahead(c, s) + if Worse(x, c) then 0 else 1
  {
    hide Worse, Ahead;
    AheadOne(c, x);
    if s == [] {
      AheadNone(c);
    } else if Worse(s[0], x) {
      AheadConcat(c, [x], s);
    } else {
      AheadInsert(c, x, s[1..]);
      AheadConcat(c, [s[0]], s[1..]);
      AheadConcat(c, [s[0]], Insert(x, s[1..]));
      assert s == [s[0]] + s[1..];
    }
  }

  lemma AheadNone(c: Candidate)
    ensures Ahead(c, []) == 0
  {}

  lemma AheadOne(c: Candidate, x: Candidate)
    ensures Ahead(c, [x]) == if Worse(x, c) then 0 else 1
  {
    assert [x][..0] == [];
  }

  lemma {:induction false} AheadRanked(c: Candidate, s: seq<Candidate>)
    ensures Ahead(c, Ranked(s)) == Ahead(c, s)
  {
    hide Worse;
    if s != [] {
      AheadRanked(c, s[..|s| - 1]);
      AheadInsert(c, s[|s| - 1], Ranked(s[..|s| - 1]));
      AheadSnoc(c, s[..|s| - 1], s[|s| - 1]);
      SplitLast(s);
    }
  }

  /** In a sorted list they come first. */
  lemma {:induction false} AheadIsPrefix(c: Candidate, l: seq<Candidate>)
    requires Sorted(l)
    ensures forall i :: 0 <= i < |l| ==> (!Worse(l[i], c) <==> i < Ahead(c, l))
    decreases |l|
  {
    if l != [] {
      var n := |l| - 1;
      AheadIsPrefix(c, l[..n]);
      if !Worse(l[n], c) {
        assert n > 0 ==> !Worse(l[n - 1], l[n]);
        assert n > 0 ==> !Worse(l[..n][n - 1], c);
      }
    }
  }

  /** The last of the best `r` is worse than `c` exactly when fewer than `r` of all rank no worse than `c`. */
  lemma LastIsWorseIff(r: nat, s: seq<Candidate>, c: Candidate)
    requires 0 < r <= |s|
    ensures Worse(Top(r, s)[r - 1], c) <==> Ahead(c, s) < r
  {
    hide Worse, Ahead;
    RankedSpec(s);
    AheadRanked(c, s);
    AheadIsPrefix(c, Ranked(s));
    assert Top(r, s)[r - 1] == Ranked(s)[r - 1];
  }

  lemma {:induction false} RankedOfSorted(l: seq<Candidate>)
    requires Sorted(l)
    ensures Ranked(l) == l
  {
    RankedSpec(l);
    SortedUnique(Ranked(l), l);
  }

  /**
   The depth law. In a full list of `r`, the entry at rank `d` (counting from one, above
   any equals) survives a stream exactly when at most `r - d` of the stream beat it,
   in whatever order they come.
   */
  lemma DepthLaw(r: nat, l: seq<Candidate>, d: nat, s: seq<Candidate>)
    requires Sorted(l) && |l| == r && 1 <= d <= r
    requires d > 1 ==> l[d - 2] != l[d - 1]
    ensures l[d - 1] in OfferAll(r, l, s) <==> Better(l[d - 1], s) <= r - d
  {
    var c := l[d - 1];
    RankedOfSorted(l);
    assert Top(r, l) == l;
    OfferAllIsTop(r, l, s);
    BetterConcat(c, l, s);
    BetterIsPrefix(c, l);
    if d > 1 {
      assert !Worse(l[d - 2], l[d - 1]);
    }
    assert Better(c, l) == d - 1;
    assert c in l + s;
    InTopIffFewBetter(r, l + s, c);
  }
}
