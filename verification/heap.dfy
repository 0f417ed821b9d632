/**
 The bounded candidate heap: a flat min-heap in two parallel arrays.

 The sift loops are specified by functions on the sequence of held candidates, so that
 two runs making the same offers leave identical arrays; the functions are then shown to
 agree with the bounded sorted list of `Ranking`.
 */
module BoundedHeap {
  import opened Options
  import opened Ranking

  // ---------------------------------------------------------------- the heap as a sequence

  function Parent(i: nat): (p: nat)
    requires i > 0
    ensures p < i
  {
    (i - 1) / 2
  }

  function Swapped(s: seq<Candidate>, i: nat, j: nat): (t: seq<Candidate>)
    requires i < |s| && j < |s|
    ensures |t| == |s|
  {
    s[i := s[j]][j := s[i]]
  }

  function SiftUp(s: seq<Candidate>, i: nat): (t: seq<Candidate>)
    requires i < |s|
    ensures |t| == |s|
    decreases i
  {
    if i > 0 && Worse(s[i], s[Parent(i)]) then SiftUp(Swapped(s, i, Parent(i)), Parent(i)) else s
  }

  /** The worst of `i` and its children. */
  function WorstOf(s: seq<Candidate>, i: nat): (w: nat)
    requires i < |s|
    ensures w == i || (i < w < |s| && Parent(w) == i && Worse(s[w], s[i]))
  {
    var left := 2 * i + 1;
    var right := left + 1;
    var w := if left < |s| && Worse(s[left], s[i]) then left else i;
    if right < |s| && Worse(s[right], s[w]) then right else w
  }

  function SiftDown(s: seq<Candidate>, i: nat): (t: seq<Candidate>)
    requires i < |s|
    ensures |t| == |s|
    decreases |s| - i
  {
    var w := WorstOf(s, i);
    if w == i then s else SiftDown(Swapped(s, i, w), w)
  }

  /** What `push` makes of the held candidates, and what it evicts. */
  function Pushed(s: seq<Candidate>, capacity: nat, c: Candidate): (seq<Candidate>, Option<Candidate>)
    requires |s| <= capacity && capacity > 0
  {
    if |s| < capacity then (SiftUp(s + [c], |s|), None)
    else if Worse(s[0], c) then (SiftDown(s[0 := c], 0), Some(s[0]))
    else (s, None)
  }

  function Popped(s: seq<Candidate>): (t: seq<Candidate>)
    requires s != []
    ensures |t| == |s| - 1
  {
    var n := |s| - 1;
    if n == 0 then [] else SiftDown(s[..n][0 := s[n]], 0)
  }

  /** One turn of the downward loop. */
  lemma SiftDownOnce(s: seq<Candidate>, i: nat)
    requires i < |s|
    ensures i <= WorstOf(s, i) < |s|
    ensures SiftDown(s, i) == if WorstOf(s, i) == i then s else SiftDown(Swapped(s, i, WorstOf(s, i)), WorstOf(s, i))
  {}

  // ---------------------------------------------------------------- the heap order

  /** No entry is worse than its parent. */
  ghost predicate IsHeap(s: seq<Candidate>) {
    forall j :: 0 < j < |s| ==> !Worse(s[j], s[Parent(j)])
  }

  lemma SwappedContents(s: seq<Candidate>, i: nat, j: nat)
    requires i < |s| && j < |s|
    ensures multiset(Swapped(s, i, j)) == multiset(s)
  {}

  /** A heap but for entry `i` against its parent. */
  ghost predicate HeapBelow(s: seq<Candidate>, i: nat) {
    && i < |s|
    && (forall j :: 0 < j < |s| && j != i ==> !Worse(s[j], s[Parent(j)]))
    && (forall j :: 0 < j < |s| && i > 0 && Parent(j) == i ==> !Worse(s[j], s[Parent(i)]))
  }

  lemma {:induction false} SiftUpRestores(s: seq<Candidate>, i: nat)
    requires HeapBelow(s, i)
    ensures IsHeap(SiftUp(s, i)) && multiset(SiftUp(s, i)) == multiset(s)
    decreases i
  {
    hide Swapped, HeapBelow;
    HeapBelowFacts(s, i);
    if i > 0 && Worse(s[i], s[Parent(i)]) {
      SwappedContents(s, i, Parent(i));
      SiftUpStep(s, i);
      SiftUpRestores(Swapped(s, i, Parent(i)), Parent(i));
    }
  }

  lemma HeapBelowFacts(s: seq<Candidate>, i: nat)
    requires HeapBelow(s, i)
    ensures i < |s|
    ensures (i > 0 ==> !Worse(s[i], s[Parent(i)])) ==> IsHeap(s)
  {}

  lemma SiftUpStep(s: seq<Candidate>, i: nat)
    requires HeapBelow(s, i) && i > 0 && Worse(s[i], s[Parent(i)])
    ensures HeapBelow(Swapped(s, i, Parent(i)), Parent(i))
  {
    hide Parent, Worse;
    var p := Parent(i);
    var t := Swapped(s, i, p);
    forall j | 0 < j < |t| && j != p
      ensures !Worse(t[j], t[Parent(j)])
    {
      WorseChain(s[j], s[p], s[i]);
      WorseChain(s[i], s[p], s[i]);
    }
    forall j | 0 < j < |t| && p > 0 && Parent(j) == p
      ensures !Worse(t[j], t[Parent(p)])
    {
      assert !Worse(s[p], s[Parent(p)]);
      NotWorseChain(s[j], s[p], s[Parent(p)]);
    }
  }

  /** If `a` is not worse than `b`, and `c` is, then `a` is not worse than `c`, nor `b`. */
  lemma WorseChain(a: Candidate, b: Candidate, c: Candidate)
    ensures !Worse(a, b) && Worse(c, b) ==> !Worse(a, c)
    ensures Worse(c, b) ==> !Worse(b, c)
  {}

  lemma NotWorseChain(a: Candidate, b: Candidate, c: Candidate)
    ensures !Worse(a, b) && !Worse(b, c) ==> !Worse(a, c)
  {}

  /** A heap but for entry `i` against its children. */
  ghost predicate HeapAbove(s: seq<Candidate>, i: nat) {
    && i < |s|
    && (forall j :: 0 < j < |s| && Parent(j) != i ==> !Worse(s[j], s[Parent(j)]))
    && (forall j :: 0 < j < |s| && i > 0 && Parent(j) == i ==> !Worse(s[j], s[Parent(i)]))
  }

  lemma {:induction false} SiftDownRestores(s: seq<Candidate>, i: nat)
    requires HeapAbove(s, i)
    ensures IsHeap(SiftDown(s, i)) && multiset(SiftDown(s, i)) == multiset(s)
    decreases |s| - i
  {
    var w := WorstOf(s, i);
    Children(s, i);
    if w != i {
      var t := Swapped(s, i, w);
      SwappedContents(s, i, w);
      SiftDownRestores(t, w);
    }
  }

  /** Nothing below `i` is worse than the entry the sift moves up. */
  lemma Children(s: seq<Candidate>, i: nat)
    requires i < |s|
    ensures forall j :: 0 < j < |s| && Parent(j) == i ==> !Worse(s[j], s[WorstOf(s, i)])
  {}

  lemma {:induction false} RootIsWorst(s: seq<Candidate>, j: nat)
    requires IsHeap(s) && j < |s|
    ensures !Worse(s[j], s[0])
    decreases j
  {
    if j > 0 {
      RootIsWorst(s, Parent(j));
    }
  }

  // ---------------------------------------------------------------- agreement with the sorted list

  /** `l` lists the candidates the heap holds, best first. */
  ghost predicate Lists(l: seq<Candidate>, s: seq<Candidate>) {
    IsHeap(s) && Sorted(l) && multiset(l) == multiset(s)
  }

  lemma ListsFacts(l: seq<Candidate>, s: seq<Candidate>)
    requires Lists(l, s)
    ensures |l| == |s|
    ensures s != [] ==> l[|l| - 1] == s[0]
  {
    assert |multiset(l)| == |l| && |multiset(s)| == |s|;
    if s != [] {
      assert s[0] in multiset(s);
      forall x | x in multiset(l)
        ensures !Worse(x, s[0])
      {
        assert x in multiset(s);
        var j :| 0 <= j < |s| && s[j] == x;
        RootIsWorst(s, j);
      }
      LastIsWorst(l, s[0]);
    }
  }

  lemma ReplacedRoot(s: seq<Candidate>, c: Candidate)
    requires s != []
    ensures multiset(s[0 := c]) == multiset(s) - multiset{s[0]} + multiset{c}
  {}

  /** A push does to the heap what an offer does to the list, evicting the same candidate. */
  lemma PushIsOffer(s: seq<Candidate>, l: seq<Candidate>, capacity: nat, c: Candidate)
    requires Lists(l, s) && |s| <= capacity && capacity > 0
    ensures |l| <= capacity
    ensures Lists(Offer(capacity, l, c).0, Pushed(s, capacity, c).0)
    ensures Offer(capacity, l, c).1 == Pushed(s, capacity, c).1
  {
    hide SiftUp, SiftDown, Insert, Sorted;
    ListsFacts(l, s);
    if |s| < capacity {
      SiftUpRestores(s + [c], |s|);
      InsertSorted(c, l);
      InsertContents(c, l);
    } else if Worse(s[0], c) {
      EvictingPush(s, l, c);
    }
  }

  lemma EvictingPush(s: seq<Candidate>, l: seq<Candidate>, c: Candidate)
    requires Lists(l, s) && s != [] && |l| == |s| && l[|l| - 1] == s[0]
    ensures Lists(Insert(c, l[..|l| - 1]), SiftDown(s[0 := c], 0))
  {
    hide SiftUp, SiftDown, Insert;
    SiftDownRestores(s[0 := c], 0);
    ReplacedRoot(s, c);
    DropLast(l);
    InsertSorted(c, l[..|l| - 1]);
    InsertContents(c, l[..|l| - 1]);
  }

  lemma HeapPrefix(s: seq<Candidate>, n: nat)
    requires IsHeap(s) && n <= |s|
    ensures IsHeap(s[..n])
  {}

  /** A heap with its root replaced is one above the root. */
  lemma ReplacedAbove(s: seq<Candidate>, c: Candidate)
    requires IsHeap(s) && s != []
    ensures HeapAbove(s[0 := c], 0)
  {
    hide Worse;
  }

  lemma PoppedContents(s: seq<Candidate>)
    requires s != []
    ensures |s| == 1 ==> multiset(s) - multiset{s[0]} == multiset{}
    ensures |s| > 1 ==>
      multiset(s[..|s| - 1][0 := s[|s| - 1]]) == multiset(s) - multiset{s[0]}
  {
    var n := |s| - 1;
    assert s == s[..n] + [s[n]];
    if n > 0 {
      ReplacedRoot(s[..n], s[n]);
    }
  }

  /** A pop removes the list's last entry. */
  lemma PopIsDropLast(s: seq<Candidate>, l: seq<Candidate>)
    requires Lists(l, s) && s != []
    ensures l != [] && s[0] == l[|l| - 1]
    ensures Lists(l[..|l| - 1], Popped(s))
  {
    hide IsHeap, Sorted, SiftDown, HeapAbove;
    ListsFacts(l, s);
    DropLast(l);
    SortedPrefix(l, |l| - 1);
    PoppedContents(s);
    var n := |s| - 1;
    if n > 0 {
      HeapPrefix(s, n);
      ReplacedAbove(s[..n], s[n]);
      SiftDownRestores(s[..n][0 := s[n]], 0);
    } else {
      NoEntries(l[..0]);
    }
  }

  lemma NoEntries(l: seq<Candidate>)
    requires l == []
    ensures IsHeap(l) && multiset(l) == multiset{}
  {}

  // ---------------------------------------------------------------- the class

  class Heap {
    const scores: array<int>
    const ids: array<nat>
    const capacity: nat
    var len: nat

    ghost predicate Valid()
      reads this, scores, ids
    {
      && scores as object != ids as object
      && 0 < capacity <= scores.Length && capacity <= ids.Length
      && len <= capacity
      && IsHeap(Items())
    }

    /** The sizes alone, which the sift loops rely on between their steps. */
    ghost predicate Sized()
      reads this
    {
      && scores as object != ids as object
      && capacity <= scores.Length && capacity <= ids.Length
      && len <= capacity
    }

    /** The candidates held, in array order. */
    ghost function Items(): (s: seq<Candidate>)
      requires len <= scores.Length && len <= ids.Length
      reads this, scores, ids
      ensures |s| == len
      ensures forall i :: 0 <= i < len ==> s[i] == Candidate(scores[i], ids[i])
    {
      seq(len, i requires 0 <= i < scores.Length && i < ids.Length reads scores, ids => Candidate(scores[i], ids[i]))
    }

    /** The candidates held, best first. */
    ghost function Listing(): (l: seq<Candidate>)
      requires Valid()
      reads this, scores, ids
      ensures Lists(l, Items()) && |l| == len
    {
      RankedSpec(Items());
      Ranked(Items())
    }

    constructor (scores: array<int>, ids: array<nat>, capacity: nat)
      requires scores as object != ids as object
      requires 0 < capacity <= scores.Length && capacity <= ids.Length
      ensures Valid() && Items() == []
      ensures this.scores == scores && this.ids == ids && this.capacity == capacity
    {
      this.scores := scores;
      this.ids := ids;
      this.capacity := capacity;
      this.len := 0;
    }

    method At(i: nat) returns (c: Candidate)
      requires i < scores.Length && i < ids.Length
      ensures c == Candidate(scores[i], ids[i])
    {
      c := Candidate(scores[i], ids[i]);
    }

    method Put(i: nat, c: Candidate)
      requires scores as object != ids as object && i < scores.Length && i < ids.Length
      modifies scores, ids
      ensures scores[..] == old(scores[..])[i := c.score] && ids[..] == old(ids[..])[i := c.id]
    {
      scores[i] := c.score;
      ids[i] := c.id;
    }

    method SwapEntries(i: nat, j: nat)
      requires Sized() && i < len && j < len && i != j
      modifies scores, ids
      ensures Items() == Swapped(old(Items()), i, j)
      ensures scores[len..] == old(scores[len..]) && ids[len..] == old(ids[len..])
    {
      var a := At(i);
      var b := At(j);
      Put(j, a);
      Put(i, b);
    }

    /** Whether a candidate could enter, and the worst one held. */
    method WouldAccept(score: int, id: nat) returns (yes: bool)
      requires Valid()
      ensures yes <==> len < capacity || Worse(Items()[0], Candidate(score, id))
    {
      if len < capacity {
        return true;
      }
      var w := At(0);
      return Worse(w, Candidate(score, id));
    }

    method Worst() returns (w: Option<Candidate>)
      requires Valid()
      ensures w == if len == 0 then None else Some(Listing()[len - 1])
    {
      if len == 0 {
        return None;
      }
      ListsFacts(Listing(), Items());
      var c := At(0);
      return Some(c);
    }

    method Push(c: Candidate) returns (evicted: Option<Candidate>)
      requires Valid()
      modifies this`len, scores, ids
      ensures Valid()
      ensures Items() == Pushed(old(Items()), capacity, c).0
      ensures evicted == Pushed(old(Items()), capacity, c).1
      ensures Listing() == Offer(capacity, old(Listing()), c).0
      ensures evicted == Offer(capacity, old(Listing()), c).1
      ensures len >= old(len) && scores[len..] == old(scores[..])[len..] && ids[len..] == old(ids[..])[len..]
    {
      hide SiftUp, SiftDown, Lists, Insert;
      ghost var before, list := Items(), Listing();
      PushIsOffer(before, list, capacity, c);
      if len < capacity {
        var i := len;
        Put(i, c);
        len := len + 1;
        assert Items() == before + [c];
        SiftUpLoop(i);
        SameListing(Offer(capacity, list, c).0);
        return None;
      }
      var worst := At(0);
      if !Worse(worst, c) {
        return None;
      }
      Put(0, c);
      assert Items() == before[0 := c];
      SiftDownLoop(0);
      SameListing(Offer(capacity, list, c).0);
      return Some(worst);
    }

    lemma SameListing(l: seq<Candidate>)
      requires Sized() && capacity > 0 && Lists(l, Items())
      ensures Valid() && Listing() == l
    {
      SortedUnique(Listing(), l);
    }

    method SiftUpLoop(start: nat)
      requires Sized() && start < len
      modifies scores, ids
      ensures Items() == SiftUp(old(Items()), start)
      ensures scores[len..] == old(scores[len..]) && ids[len..] == old(ids[len..])
    {
      hide Worse;
      ghost var goal := SiftUp(Items(), start);
      var i := start;
      while i > 0
        invariant 0 <= i < len
        invariant SiftUp(Items(), i) == goal
        invariant scores[len..] == old(scores[len..]) && ids[len..] == old(ids[len..])
      {
        var parent := (i - 1) / 2;
        var a := At(i);
        var b := At(parent);
        if Worse(a, b) {
          SwapEntries(i, parent);
          i := parent;
        } else {
          break;
        }
      }
    }

    method SiftDownLoop(start: nat)
      requires Sized() && start < len
      modifies scores, ids
      ensures Items() == SiftDown(old(Items()), start)
      ensures scores[len..] == old(scores[len..]) && ids[len..] == old(ids[len..])
    {
      hide Worse, SiftDown, WorstOf, Swapped;
      ghost var goal := SiftDown(Items(), start);
      var i := start;
      while true
        invariant i < len
        invariant SiftDown(Items(), i) == goal
        invariant scores[len..] == old(scores[len..]) && ids[len..] == old(ids[len..])
        decreases len - i
      {
        var w := WorstIndex(i);
        SiftDownOnce(Items(), i);
        if w == i {
          break;
        }
        SwapEntries(i, w);
        i := w;
      }
    }

    method WorstIndex(i: nat) returns (w: nat)
      requires Sized() && i < len
      ensures w == WorstOf(Items(), i)
    {
      var left := 2 * i + 1;
      var right := left + 1;
      w := i;
      if left < len && Worse(Candidate(scores[left], ids[left]), Candidate(scores[w], ids[w])) {
        w := left;
      }
      if right < len && Worse(Candidate(scores[right], ids[right]), Candidate(scores[w], ids[w])) {
        w := right;
      }
    }

    /** Move the last entry to the root and sift it down. */
    method RemoveRoot()
      requires Sized() && len > 0
      modifies this`len, scores, ids
      ensures Sized() && len == old(len) - 1 && Items() == Popped(old(Items()))
    {
      hide SiftDown, Worse;
      ghost var before := Items();
      len := len - 1;
      if len > 0 {
        var last := At(len);
        Put(0, last);
        assert Items() == before[..len][0 := before[len]];
        SiftDownLoop(0);
      } else {
        assert Items() == [];
      }
    }

    method PopWorst() returns (out: Option<Candidate>)
      requires Valid()
      modifies this`len, scores, ids
      ensures Valid()
      ensures old(len) == 0 ==> out == None && len == 0
      ensures old(len) > 0 ==> len == old(len) - 1 && out == Some(old(Listing())[len])
      ensures Listing() == old(Listing())[..len]
    {
      if len == 0 {
        return None;
      }
      hide SiftDown, Lists, Worse, IsHeap, Ranked, Popped;
      ghost var list := Listing();
      PopIsDropLast(Items(), list);
      var c := At(0);
      RemoveRoot();
      SameListing(list[..len]);
      return Some(c);
    }

    /** Discard the worst until `n` are left. */
    method Shrink(n: nat)
      requires Valid() && n <= len
      modifies this`len, scores, ids
      ensures Valid() && len == n && Listing() == old(Listing())[..n]
    {
      ghost var list := Listing();
      while len > n
        invariant Valid() && n <= len <= |list|
        invariant Listing() == list[..len]
      {
        var _ := PopWorst();
      }
    }

    /** Fill `out` with the best candidates, best first, and leave the heap empty. */
    method DrainSorted(out: array<Candidate>) returns (n: nat)
      requires Valid() && out as object != scores as object && out as object != ids as object
      modifies this`len, scores, ids, out
      ensures Valid() && len == 0
      ensures n == Min(old(len), out.Length)
      ensures out[..n] == old(Listing())[..n]
      ensures out[n..] == old(out[n..])
    {
      hide Sorted, IsHeap, Lists, Valid, Listing, Items;
      n := Min(len, out.Length);
      ghost var list := Listing()[..n];
      Shrink(n);
      var filled := 0;
      while filled < n
        invariant Valid() && 0 <= filled <= n && len == n - filled
        invariant Listing() == list[..len]
        invariant forall i :: len <= i < n ==> out[i] == list[i]
        invariant forall i :: n <= i < out.Length ==> out[i] == old(out[i])
      {
        var c := PopWorst();
        out[n - 1 - filled] := c.value;
        filled := filled + 1;
      }
    }
  }

  /** `Heap::new`: refused when a buffer is shorter than the capacity, or the capacity is zero. */
  method NewHeap(scores: array<int>, ids: array<nat>, capacity: nat) returns (h: Option<Heap>)
    requires scores as object != ids as object
    ensures h.None? <==> scores.Length < capacity || ids.Length < capacity || capacity == 0
    ensures h.Some? ==>
      && fresh(h.value) && h.value.Valid() && h.value.Items() == []
      && h.value.scores == scores && h.value.ids == ids && h.value.capacity == capacity
  {
    if scores.Length < capacity || ids.Length < capacity || capacity == 0 {
      return None;
    }
    var heap := new Heap(scores, ids, capacity);
    return Some(heap);
  }
}
