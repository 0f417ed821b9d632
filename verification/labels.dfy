/** The label permutation search: a labelling of centroids that keeps one-bit neighbours close. */
module Labels {
  import opened Arith

  type Vec = seq<real>

  // ---------------------------------------------------------------- bits

  /** Bitwise exclusive or. */
  function Xor(a: nat, b: nat): nat {
    if a == 0 then b else if b == 0 then a else (a % 2 + b % 2) % 2 + 2 * Xor(a / 2, b / 2)
  }

  lemma XorBits(a: nat, b: nat)
    ensures Xor(a, b) % 2 == (a % 2 + b % 2) % 2 && Xor(a, b) / 2 == Xor(a / 2, b / 2)
  {
    hide Xor;
    if a == 0 {
      XorZero(b);
      XorZero(b / 2);
    } else if b == 0 {
      XorZero(a);
      XorZero(a / 2);
    } else {
      XorStep(a, b);
      BitAndRest((a % 2 + b % 2) % 2, Xor(a / 2, b / 2));
    }
  }

  lemma XorStep(a: nat, b: nat)
    requires a > 0 && b > 0
    ensures Xor(a, b) == (a % 2 + b % 2) % 2 + 2 * Xor(a / 2, b / 2)
  {}

  lemma XorZero(x: nat)
    ensures Xor(0, x) == x && Xor(x, 0) == x
  {}

  lemma BitAndRest(bit: nat, rest: nat)
    requires bit < 2
    ensures (bit + 2 * rest) % 2 == bit && (bit + 2 * rest) / 2 == rest
  {}

  lemma {:induction false} XorBelow(a: nat, b: nat, e: nat)
    requires a < Pow2(e) && b < Pow2(e)
    ensures Xor(a, b) < Pow2(e)
    decreases e
  {
    if e > 0 {
      XorBits(a, b);
      XorBelow(a / 2, b / 2, e - 1);
    }
  }

  /** `label ^ (1 << l)`. */
  function FlipBit(x: nat, l: nat): nat {
    Xor(x, Pow2(l))
  }

  /** `rank ^ (rank >> 1)`. */
  function Gray(rank: nat): nat {
    Xor(rank, rank / 2)
  }

  function UnGray(g: nat): nat {
    if g == 0 then 0 else 2 * UnGray(g / 2) + (g % 2 + UnGray(g / 2) % 2) % 2
  }

  /** A Gray code's low bit, and what remains without it. */
  lemma GrayHalves(r: nat)
    ensures Gray(r) % 2 == (r % 2 + (r / 2) % 2) % 2 && Gray(r) / 2 == Gray(r / 2)
  {
    XorBits(r, r / 2);
  }

  lemma SameHalves(a: nat, b: nat)
    requires a / 2 == b / 2 && a % 2 == b % 2
    ensures a == b
  {}

  lemma {:induction false} GrayOfUnGray(g: nat)
    ensures Gray(UnGray(g)) == g
  {
    hide Gray, UnGray;
    var r := UnGray(g);
    GrayHalves(r);
    UnGrayHalves(g);
    if g > 0 {
      GrayOfUnGray(g / 2);
      SameHalves(Gray(r), g);
    } else {
      assert Gray(0) == 0 by { GrayOfZero(); }
    }
  }

  lemma GrayOfZero()
    ensures Gray(0) == 0
  {}

  lemma {:induction false} GrayPositive(r: nat)
    ensures r > 0 ==> Gray(r) > 0
  {
    hide Gray;
    GrayHalves(r);
    if r > 0 {
      GrayPositive(r / 2);
    }
  }

  lemma {:induction false} UnGrayOfGray(r: nat)
    ensures UnGray(Gray(r)) == r
  {
    hide Gray, UnGray;
    GrayHalves(r);
    GrayPositive(r);
    if r > 0 {
      UnGrayOfGray(r / 2);
      UnGrayHalves(Gray(r));
      SameHalves(UnGray(Gray(r)), r);
    } else {
      GrayOfZero();
      UnGrayHalves(0);
    }
  }

  lemma UnGrayHalves(g: nat)
    ensures g > 0 ==> UnGray(g) / 2 == UnGray(g / 2) && UnGray(g) % 2 == (g % 2 + UnGray(g / 2) % 2) % 2
    ensures UnGray(0) == 0
  {}

  lemma {:induction false} UnGrayBelow(g: nat, e: nat)
    requires g < Pow2(e)
    ensures UnGray(g) < Pow2(e)
    decreases e
  {
    if e > 0 && g > 0 {
      UnGrayBelow(g / 2, e - 1);
    }
  }

  /** The Gray code permutes the ranks below a power of two. */
  lemma GrayPermutes(r: nat, e: nat)
    requires r < Pow2(e)
    ensures Gray(r) < Pow2(e) && UnGray(r) < Pow2(e)
    ensures UnGray(Gray(r)) == r && Gray(UnGray(r)) == r
  {
    XorBelow(r, r / 2, e);
    UnGrayBelow(r, e);
    UnGrayOfGray(r);
    GrayOfUnGray(r);
  }

  lemma FlipHalves(x: nat, l: nat)
    ensures FlipBit(x, l) / 2 == if l == 0 then x / 2 else FlipBit(x / 2, l - 1)
    ensures FlipBit(x, l) % 2 == if l == 0 then (x + 1) % 2 else x % 2
  {
    hide Xor, Pow2;
    XorBits(x, Pow2(l));
    if l > 0 {
      PowerHalves(l);
    } else {
      XorZero(x / 2);
      PowerOne();
    }
  }

  lemma PowerHalves(l: nat)
    requires l > 0
    ensures Pow2(l) / 2 == Pow2(l - 1) && Pow2(l) % 2 == 0
  {}

  lemma PowerOne()
    ensures Pow2(0) == 1
  {}

  /** Adjacent ranks get labels one bit apart, a bit no higher than the rank reaches. */
  lemma {:induction false} GrayNeighbours(r: nat) returns (l: nat)
    ensures Gray(r + 1) == FlipBit(Gray(r), l)
    ensures Pow2(l) <= r + 1
  {
    hide Gray, FlipBit;
    GrayHalves(r);
    GrayHalves(r + 1);
    if r % 2 == 0 {
      l := 0;
      FlipHalves(Gray(r), 0);
    } else {
      var k := GrayNeighbours(r / 2);
      l := k + 1;
      FlipHalves(Gray(r), l);
    }
    SameHalves(Gray(r + 1), FlipBit(Gray(r), l));
  }

  // ---------------------------------------------------------------- permutations

  /** A labelling: every label once. */
  predicate Perm(p: seq<nat>, k: nat) {
    && |p| == k
    && (forall i :: 0 <= i < k ==> p[i] < k)
    && (forall i, j :: 0 <= i < j < k ==> p[i] != p[j])
  }

  function Identity(k: nat): (p: seq<nat>)
    ensures Perm(p, k)
  {
    seq(k, i requires 0 <= i < k => i)
  }

  function Swapped(p: seq<nat>, i: nat, j: nat): (q: seq<nat>)
    requires i < |p| && j < |p|
    ensures |q| == |p|
  {
    p[i := p[j]][j := p[i]]
  }

  lemma SwapKeepsPerm(p: seq<nat>, k: nat, i: nat, j: nat)
    requires Perm(p, k) && i < k && j < k
    ensures Perm(Swapped(p, i, j), k)
  {}

  function Members(p: seq<nat>): (s: set<nat>) {
    set i | 0 <= i < |p| :: p[i]
  }

  lemma {:induction false} DistinctMembers(p: seq<nat>)
    requires forall i, j :: 0 <= i < j < |p| ==> p[i] != p[j]
    ensures |Members(p)| == |p|
    decreases |p|
  {
    if p == [] {
      assert Members(p) == {};
    } else {
      var k := |p| - 1;
      DistinctMembers(p[..k]);
      forall x
        ensures x in Members(p) <==> x in Members(p[..k]) + {p[k]}
      {
        if x in Members(p) {
          var i :| 0 <= i < |p| && p[i] == x;
          if i < k {
            assert p[..k][i] == x;
          }
        }
        if x in Members(p[..k]) {
          var i :| 0 <= i < k && p[..k][i] == x;
          assert p[i] == x;
        }
      }
      assert Members(p) == Members(p[..k]) + {p[k]};
      assert p[k] !in Members(p[..k]);
    }
  }

  /** Every value below `k` has a place in a labelling of `k`. */
  lemma PermHits(p: seq<nat>, k: nat, c: nat) returns (l: nat)
    requires Perm(p, k) && c < k
    ensures l < k && p[l] == c
  {
    DistinctMembers(p);
    DistinctMembers(Identity(k));
    forall x | x in Members(p)
      ensures x in Members(Identity(k))
    {
      assert Identity(k)[x] == x;
    }
    SameSizeSubset(Members(p), Members(Identity(k)));
    assert Identity(k)[c] == c;
    assert c in Members(p);
    l :| 0 <= l < |p| && p[l] == c;
  }

  /** `newLabel` sends every centroid to its label, `position` every label to its centroid. */
  predicate Inverse(newLabel: seq<nat>, position: seq<nat>, k: nat) {
    && Perm(position, k) && |newLabel| == k
    && forall l :: 0 <= l < k ==> newLabel[position[l]] == l
  }

  /** The inverse of a labelling is one, and inverts on both sides. */
  lemma InverseIsPerm(newLabel: seq<nat>, position: seq<nat>, k: nat)
    requires Inverse(newLabel, position, k)
    ensures Perm(newLabel, k)
    ensures forall c :: 0 <= c < k ==> position[newLabel[c]] == c
  {
    forall c | 0 <= c < k
      ensures newLabel[c] < k && position[newLabel[c]] == c
    {
      var l := PermHits(position, k, c);
    }
    forall x, y | 0 <= x < y < k
      ensures newLabel[x] != newLabel[y]
    {
      assert position[newLabel[x]] == x && position[newLabel[y]] == y;
    }
  }

  // ---------------------------------------------------------------- displacement

  /** Squared distance over the first `n` components. */
  function SqDist(a: Vec, b: Vec, n: nat): (d: real)
    requires n <= |a| && n <= |b|
    ensures d >= 0.0
  {
    if n == 0 then 0.0 else SqDist(a, b, n - 1) + Square(a[n - 1] - b[n - 1])
  }

  function Square(x: real): (s: real)
    ensures s >= 0.0
  {
    SquaresArePositive(x);
    x * x
  }

  lemma SquaresArePositive(x: real)
    ensures x * x >= 0.0
  {
    if x < 0.0 {
      assert (-x) * (-x) >= 0.0;
      assert (-x) * (-x) == x * x;
    }
  }

  function Distance(a: Vec, b: Vec): (d: real)
    ensures d >= 0.0
  {
    SqDist(a, b, if |a| < |b| then |a| else |b|)
  }

  datatype Tally = Tally(total: real, count: nat) {
    function Mean(): real {
      if count == 0 then 0.0 else total / (count as real)
    }
  }

  /** Neighbours of label `x` one bit away, over the low `l` bits: their distances and their number. */
  function RowTally(at: seq<Vec>, x: nat, l: nat, t: Tally): Tally
    requires x < |at|
  {
    if l == 0 then t
    else
      var before := RowTally(at, x, l - 1, t);
      var y := FlipBit(x, l - 1);
      if y >= |at| then before else Tally(before.total + Distance(at[x], at[y]), before.count + 1)
  }

  function AllTally(at: seq<Vec>, bits: nat, n: nat): Tally
    requires n <= |at|
  {
    if n == 0 then Tally(0.0, 0) else RowTally(at, n - 1, bits, AllTally(at, bits, n - 1))
  }

  /** Mean squared distance between vectors whose labels differ in one bit. */
  function Spread(at: seq<Vec>, bits: nat): real {
    AllTally(at, bits, |at|).Mean()
  }

  /** The centroids in label order. */
  function Placed(book: seq<Vec>, position: seq<nat>): (at: seq<Vec>)
    requires forall i :: 0 <= i < |position| ==> position[i] < |book|
    ensures |at| == |position|
  {
    seq(|position|, i requires 0 <= i < |position| => book[position[i]])
  }

  /** Sum over the components both have of the square of the difference. */
  function Gap(a: Vec, b: Vec, n: nat): real
    requires n <= |a| && n <= |b|
  {
    if n == 0 then 0.0 else Gap(a, b, n - 1) + (a[n - 1] - b[n - 1]) * (a[n - 1] - b[n - 1])
  }

  /** That, over the neighbours of label `x` in its low `l` bits, and how many there are. */
  function RowGap(at: seq<Vec>, x: nat, l: nat): real
    requires x < |at|
  {
    if l == 0 then 0.0
    else
      var y := Xor(x, Pow2(l - 1));
      RowGap(at, x, l - 1) + if y < |at| then Gap(at[x], at[y], if |at[x]| < |at[y]| then |at[x]| else |at[y]|) else 0.0
  }

  function RowCount(k: nat, x: nat, l: nat): nat {
    if l == 0 then 0 else RowCount(k, x, l - 1) + if Xor(x, Pow2(l - 1)) < k then 1 else 0
  }

  function TotalGap(at: seq<Vec>, bits: nat, n: nat): real
    requires n <= |at|
  {
    if n == 0 then 0.0 else TotalGap(at, bits, n - 1) + RowGap(at, n - 1, bits)
  }

  function TotalCount(k: nat, bits: nat, n: nat): nat {
    if n == 0 then 0 else TotalCount(k, bits, n - 1) + RowCount(k, n - 1, bits)
  }

  lemma {:induction false} SqDistIsGap(a: Vec, b: Vec, n: nat)
    requires n <= |a| && n <= |b|
    ensures SqDist(a, b, n) == Gap(a, b, n)
  {
    if n > 0 {
      SqDistIsGap(a, b, n - 1);
    }
  }

  lemma {:induction false} RowTallyIs(at: seq<Vec>, x: nat, l: nat, t: Tally)
    requires x < |at|
    ensures RowTally(at, x, l, t) == Tally(t.total + RowGap(at, x, l), t.count + RowCount(|at|, x, l))
  {
    hide Gap, SqDist, Xor;
    if l > 0 {
      RowTallyIs(at, x, l - 1, t);
      var y := FlipBit(x, l - 1);
      if y < |at| {
        SqDistIsGap(at[x], at[y], if |at[x]| < |at[y]| then |at[x]| else |at[y]|);
      }
    }
  }

  lemma {:induction false} AllTallyIs(at: seq<Vec>, bits: nat, n: nat)
    requires n <= |at|
    ensures AllTally(at, bits, n) == Tally(TotalGap(at, bits, n), TotalCount(|at|, bits, n))
  {
    hide RowGap, RowCount, RowTally;
    if n > 0 {
      AllTallyIs(at, bits, n - 1);
      RowTallyIs(at, n - 1, bits, AllTally(at, bits, n - 1));
    }
  }

  /** The displacement is a mean: of the squared distances over all pairs one bit apart, zero without any. */
  lemma SpreadIsMean(at: seq<Vec>, bits: nat)
    ensures var pairs := TotalCount(|at|, bits, |at|);
            if pairs == 0 then Spread(at, bits) == 0.0
            else Spread(at, bits) * (pairs as real) == TotalGap(at, bits, |at|)
  {
    hide AllTally, TotalGap, TotalCount;
    AllTallyIs(at, bits, |at|);
  }

  method SquaredDistance(a: Vec, b: Vec) returns (d: real)
    ensures d == Distance(a, b)
  {
    hide Square;
    var n := if |a| < |b| then |a| else |b|;
    d := 0.0;
    var i := 0;
    while i < n
      invariant 0 <= i <= n && d == SqDist(a, b, i)
    {
      d := d + Square(a[i] - b[i]);
      i := i + 1;
    }
  }

  method MeanHammingDisplacement(book: seq<Vec>, bits: nat) returns (mean: real)
    ensures mean == Spread(book, bits)
  {
    hide FlipBit, Distance;
    var t := Tally(0.0, 0);
    var c := 0;
    while c < |book|
      invariant 0 <= c <= |book| && t == AllTally(book, bits, c)
    {
      ghost var start := t;
      var l := 0;
      while l < bits
        invariant 0 <= l <= bits && t == RowTally(book, c, l, start)
      {
        var neighbour := FlipBit(c, l);
        if neighbour < |book| {
          var d := SquaredDistance(book[c], book[neighbour]);
          t := Tally(t.total + d, t.count + 1);
        }
        l := l + 1;
      }
      c := c + 1;
    }
    return t.Mean();
  }

  /** The same under a labelling, without moving the centroids. */
  method DisplacementOf(book: seq<Vec>, position: seq<nat>, bits: nat) returns (mean: real)
    requires forall i :: 0 <= i < |position| ==> position[i] < |book|
    ensures mean == Spread(Placed(book, position), bits)
  {
    hide FlipBit, Distance;
    ghost var at := Placed(book, position);
    var t := Tally(0.0, 0);
    var x := 0;
    while x < |position|
      invariant 0 <= x <= |position| && t == AllTally(at, bits, x)
    {
      ghost var start := t;
      var a := book[position[x]];
      var l := 0;
      while l < bits
        invariant 0 <= l <= bits && t == RowTally(at, x, l, start)
      {
        var y := FlipBit(x, l);
        if y < |position| {
          var d := SquaredDistance(a, book[position[y]]);
          t := Tally(t.total + d, t.count + 1);
        }
        l := l + 1;
      }
      x := x + 1;
    }
    return t.Mean();
  }

  // ---------------------------------------------------------------- the seed

  /** Component `axis` of centroid `c`, zero when there is none. */
  function Coordinate(book: seq<Vec>, c: nat, axis: nat): real
    requires c < |book|
  {
    if axis < |book[c]| then book[c][axis] else 0.0
  }

  function Lowest(book: seq<Vec>, axis: nat, n: nat): real
    requires 0 < n <= |book|
  {
    var v := Coordinate(book, n - 1, axis);
    if n == 1 then v else if v < Lowest(book, axis, n - 1) then v else Lowest(book, axis, n - 1)
  }

  function Highest(book: seq<Vec>, axis: nat, n: nat): real
    requires 0 < n <= |book|
  {
    var v := Coordinate(book, n - 1, axis);
    if n == 1 then v else if v > Highest(book, axis, n - 1) then v else Highest(book, axis, n - 1)
  }

  function Width(book: seq<Vec>, axis: nat): real
    requires book != []
  {
    Highest(book, axis, |book|) - Lowest(book, axis, |book|)
  }

  /** Component `axis` of `v`, zero when there is none. */
  function Component(v: Vec, axis: nat): real {
    if axis < |v| then v[axis] else 0.0
  }

  lemma {:induction false} EndsBound(book: seq<Vec>, axis: nat, n: nat, c: nat)
    requires c < n <= |book|
    ensures Lowest(book, axis, n) <= Component(book[c], axis) <= Highest(book, axis, n)
    decreases n
  {
    if c < n - 1 {
      EndsBound(book, axis, n - 1, c);
    } else if n > 1 {
      WidthIsPositive(book, axis, n - 1);
    }
  }

  lemma {:induction false} EndsReached(book: seq<Vec>, axis: nat, n: nat) returns (lo: nat, hi: nat)
    requires 0 < n <= |book|
    ensures lo < n && Component(book[lo], axis) == Lowest(book, axis, n)
    ensures hi < n && Component(book[hi], axis) == Highest(book, axis, n)
    decreases n
  {
    lo, hi := n - 1, n - 1;
    if n > 1 {
      var l, h := EndsReached(book, axis, n - 1);
      lo := if Lowest(book, axis, n) == Lowest(book, axis, n - 1) then l else lo;
      hi := if Highest(book, axis, n) == Highest(book, axis, n - 1) then h else hi;
    }
  }

  /** The width is the largest difference between two centroids on the axis. */
  lemma WidthIsRange(book: seq<Vec>, axis: nat)
    requires book != []
    ensures forall x, y :: 0 <= x < |book| && 0 <= y < |book| ==>
              Component(book[y], axis) - Component(book[x], axis) <= Width(book, axis)
    ensures exists x, y :: 0 <= x < |book| && 0 <= y < |book|
                           && Component(book[y], axis) - Component(book[x], axis) == Width(book, axis)
  {
    hide Lowest, Highest, Component;
    forall x, y | 0 <= x < |book| && 0 <= y < |book|
      ensures Component(book[y], axis) - Component(book[x], axis) <= Width(book, axis)
    {
      EndsBound(book, axis, |book|, x);
      EndsBound(book, axis, |book|, y);
    }
    var lo, hi := EndsReached(book, axis, |book|);
    assert Component(book[hi], axis) - Component(book[lo], axis) == Width(book, axis);
  }

  /** The first coordinate of greatest spread. */
  ghost predicate Widest(book: seq<Vec>, ds: nat, best: nat)
    requires book != []
  {
    && (ds > 0 ==> best < ds)
    && (forall axis: nat :: axis < ds ==> Width(book, axis) <= Width(book, best))
    && forall axis: nat :: axis < best && axis < ds ==> Width(book, axis) < Width(book, best)
  }

  method WidestAxis(book: seq<Vec>, ds: nat) returns (best: nat)
    requires book != []
    ensures Widest(book, ds, best)
  {
    best := 0;
    var bestWidth := -1.0;
    var axis := 0;
    while axis < ds
      invariant 0 <= axis <= ds
      invariant axis == 0 ==> best == 0 && bestWidth == -1.0
      invariant axis > 0 ==> best < axis && bestWidth == Width(book, best)
      invariant forall x: nat :: x < axis ==> Width(book, x) <= bestWidth
      invariant forall x: nat :: x < best && x < axis ==> Width(book, x) < bestWidth
    {
      var lo, hi := Coordinate(book, 0, axis), Coordinate(book, 0, axis);
      var c := 1;
      while c < |book|
        invariant 1 <= c <= |book| && lo == Lowest(book, axis, c) && hi == Highest(book, axis, c)
      {
        var v := Coordinate(book, c, axis);
        if v < lo {
          lo := v;
        }
        if v > hi {
          hi := v;
        }
        c := c + 1;
      }
      WidthIsPositive(book, axis, |book|);
      if hi - lo > bestWidth {
        bestWidth := hi - lo;
        best := axis;
      }
      axis := axis + 1;
    }
  }

  lemma {:induction false} WidthIsPositive(book: seq<Vec>, axis: nat, n: nat)
    requires 0 < n <= |book|
    ensures Lowest(book, axis, n) <= Highest(book, axis, n)
    decreases n
  {
    if n > 1 {
      WidthIsPositive(book, axis, n - 1);
    }
  }

  /** After every centroid not beyond it on the axis: the sort is stable. */
  function PlaceBy(book: seq<Vec>, axis: nat, order: seq<nat>, c: nat): (s: seq<nat>)
    requires c < |book| && forall i :: 0 <= i < |order| ==> order[i] < |book|
    ensures |s| == |order| + 1 && forall i :: 0 <= i < |s| ==> s[i] < |book|
  {
    if order == [] then [c]
    else
      var k := |order| - 1;
      if Coordinate(book, c, axis) < Coordinate(book, order[k], axis) then PlaceBy(book, axis, order[..k], c) + [order[k]]
      else order + [c]
  }

  /** The first `n` centroids sorted along the axis. */
  function SortBy(book: seq<Vec>, axis: nat, n: nat): (s: seq<nat>)
    requires n <= |book|
    ensures |s| == n && forall i :: 0 <= i < n ==> s[i] < |book|
  {
    if n == 0 then [] else PlaceBy(book, axis, SortBy(book, axis, n - 1), n - 1)
  }

  lemma {:induction false} PlaceByMembers(book: seq<Vec>, axis: nat, order: seq<nat>, c: nat)
    requires c < |book| && forall i :: 0 <= i < |order| ==> order[i] < |book|
    ensures multiset(PlaceBy(book, axis, order, c)) == multiset(order) + multiset{c}
    decreases |order|
  {
    hide Coordinate;
    if order != [] {
      var k := |order| - 1;
      PlaceByMembers(book, axis, order[..k], c);
      assert order == order[..k] + [order[k]];
    }
  }

  /** Sorting the centroids leaves each exactly once. */
  lemma {:induction false} SortByPermutes(book: seq<Vec>, axis: nat, n: nat)
    requires n <= |book|
    ensures Perm(SortBy(book, axis, n), n)
    decreases n
  {
    hide PlaceBy;
    if n > 0 {
      SortByPermutes(book, axis, n - 1);
      PlaceByMembers(book, axis, SortBy(book, axis, n - 1), n - 1);
      OneMoreMember(SortBy(book, axis, n - 1), SortBy(book, axis, n), n - 1);
    }
  }

  /** `x` lies before `y` on the axis; the lower index first where they agree. */
  predicate Precedes(book: seq<Vec>, axis: nat, x: nat, y: nat) {
    && x < |book| && y < |book|
    && var u, v := Component(book[x], axis), Component(book[y], axis);
       u < v || (u == v && x < y)
  }

  predicate Along(book: seq<Vec>, axis: nat, order: seq<nat>) {
    && (forall i :: 0 <= i < |order| ==> order[i] < |book|)
    && forall i, j :: 0 <= i < j < |order| ==> Precedes(book, axis, order[i], order[j])
  }

  lemma PrecedesIs(book: seq<Vec>, axis: nat, x: nat, y: nat)
    requires x < |book| && y < |book|
    ensures Precedes(book, axis, x, y) <==>
              || Coordinate(book, x, axis) < Coordinate(book, y, axis)
              || (Coordinate(book, x, axis) == Coordinate(book, y, axis) && x < y)
  {}

  lemma AlongSnoc(book: seq<Vec>, axis: nat, order: seq<nat>, x: nat)
    requires Along(book, axis, order) && x < |book|
    requires forall y :: y in order ==> Precedes(book, axis, y, x)
    ensures Along(book, axis, order + [x])
  {
    hide Precedes;
  }

  lemma PlacedMembers(book: seq<Vec>, axis: nat, order: seq<nat>, c: nat, y: nat)
    requires c < |book| && forall i :: 0 <= i < |order| ==> order[i] < |book|
    ensures y in PlaceBy(book, axis, order, c) <==> y in order || y == c
  {
    hide PlaceBy, Coordinate;
    PlaceByMembers(book, axis, order, c);
    assert y in PlaceBy(book, axis, order, c) <==> y in multiset(PlaceBy(book, axis, order, c));
    assert y in order <==> y in multiset(order);
  }

  /** A later centroid goes after every earlier one it does not precede. */
  lemma {:induction false} PlaceBySorts(book: seq<Vec>, axis: nat, order: seq<nat>, c: nat)
    requires Along(book, axis, order) && c < |book| && forall i :: 0 <= i < |order| ==> order[i] < c
    ensures Along(book, axis, PlaceBy(book, axis, order, c))
    decreases |order|
  {
    hide Coordinate, Precedes;
    if order != [] {
      var k := |order| - 1;
      if Coordinate(book, c, axis) < Coordinate(book, order[k], axis) {
        var rest := PlaceBy(book, axis, order[..k], c);
        PlaceBySorts(book, axis, order[..k], c);
        forall y | y in rest
          ensures Precedes(book, axis, y, order[k])
        {
          PlacedMembers(book, axis, order[..k], c, y);
          PrecedesIs(book, axis, c, order[k]);
        }
        AlongSnoc(book, axis, rest, order[k]);
      } else {
        forall y | y in order
          ensures Precedes(book, axis, y, c)
        {
          PrecedesIs(book, axis, y, order[k]);
          PrecedesIs(book, axis, y, c);
        }
        AlongSnoc(book, axis, order, c);
      }
    }
  }

  /** Sorting puts the centroids in order along the axis, stably. */
  lemma {:induction false} SortBySorts(book: seq<Vec>, axis: nat, n: nat)
    requires n <= |book|
    ensures Along(book, axis, SortBy(book, axis, n))
    decreases n
  {
    hide PlaceBy, Along;
    if n == 0 {
      NothingAlong(book, axis);
    } else {
      SortBySorts(book, axis, n - 1);
      SortByPermutes(book, axis, n - 1);
      PlaceBySorts(book, axis, SortBy(book, axis, n - 1), n - 1);
    }
  }

  lemma NothingAlong(book: seq<Vec>, axis: nat)
    ensures Along(book, axis, [])
  {}

  lemma OneMoreMember(p: seq<nat>, q: seq<nat>, k: nat)
    requires Perm(p, k) && |q| == k + 1 && multiset(q) == multiset(p) + multiset{k}
    ensures Perm(q, k + 1)
  {
    forall i | 0 <= i < |q|
      ensures q[i] <= k
    {
      assert q[i] in multiset(q);
      assert q[i] in multiset(p) || q[i] == k;
    }
    forall i, j | 0 <= i < j < |q|
      ensures q[i] != q[j]
    {
      AtMostOnce(p, k, q[i]);
      TwiceIsTwo(q, i, j);
    }
  }

  lemma TwiceIsTwo(q: seq<nat>, i: nat, j: nat)
    requires i < j < |q|
    ensures q[i] == q[j] ==> multiset(q)[q[i]] >= 2
  {
    assert q == q[..j] + [q[j]] + q[j + 1..];
    assert q[i] in multiset(q[..j]) by {
      assert q[..j][i] == q[i];
    }
  }

  lemma {:induction false} AtMostOnce(p: seq<nat>, k: nat, x: nat)
    requires Perm(p, k)
    ensures multiset(p)[x] <= 1 && (x >= k ==> multiset(p)[x] == 0)
  {
    CountDistinct(p, x);
    if x >= k {
      assert x !in p;
    }
  }

  lemma {:induction false} CountDistinct(p: seq<nat>, x: nat)
    requires forall i, j :: 0 <= i < j < |p| ==> p[i] != p[j]
    ensures multiset(p)[x] <= 1
    decreases |p|
  {
    if p != [] {
      var k := |p| - 1;
      CountDistinct(p[..k], x);
      assert p == p[..k] + [p[k]];
      if p[k] == x {
        assert x !in p[..k];
      }
    }
  }

  // ---------------------------------------------------------------- the search

  /** The sorted order, Gray-coded: label `Gray(rank)` gets the centroid of that rank. */
  function Seeded(order: seq<nat>): (position: seq<nat>)
    ensures |position| == |order|
  {
    seq(|order|, g requires 0 <= g < |order| => if UnGray(g) < |order| then order[UnGray(g)] else 0)
  }

  lemma SeedIsPerm(order: seq<nat>, e: nat)
    requires Perm(order, Pow2(e))
    ensures Perm(Seeded(order), Pow2(e))
  {
    hide UnGray, Gray;
    var k := Pow2(e);
    forall i | 0 <= i < k
      ensures UnGray(i) < k && Gray(UnGray(i)) == i
    {
      GrayPermutes(i, e);
    }
    forall i, j | 0 <= i < j < k
      ensures Seeded(order)[i] != Seeded(order)[j]
    {
      assert UnGray(i) != UnGray(j);
    }
  }

  /** The labels of ranks `r` and `t` hold centroids in that order along the axis. */
  predicate GrayPair(book: seq<Vec>, axis: nat, position: seq<nat>, r: nat, t: nat) {
    Gray(r) < |position| && Gray(t) < |position| && Precedes(book, axis, position[Gray(r)], position[Gray(t)])
  }

  /** Read at the Gray codes of the ranks, the labelling is the centroids in order along the axis. */
  predicate GrayAlong(book: seq<Vec>, axis: nat, position: seq<nat>) {
    |position| == |book| && forall r: nat, t: nat | r < t < |book| :: GrayPair(book, axis, position, r, t)
  }

  lemma SeededAt(order: seq<nat>, e: nat, r: nat)
    requires |order| == Pow2(e) && r < |order|
    ensures Gray(r) < |order| && Seeded(order)[Gray(r)] == order[r]
  {
    hide Gray, UnGray;
    GrayPermutes(r, e);
  }

  lemma AlongAt(book: seq<Vec>, axis: nat, order: seq<nat>, i: nat, j: nat)
    requires Along(book, axis, order) && i < j < |order|
    ensures Precedes(book, axis, order[i], order[j])
  {
    hide Precedes;
  }

  lemma SeedIsGrayAlong(book: seq<Vec>, axis: nat, e: nat)
    requires |book| == Pow2(e)
    ensures GrayAlong(book, axis, Seeded(SortBy(book, axis, |book|)))
  {
    hide Gray, SortBy, Precedes, Along, Seeded, GrayPair;
    var order := SortBy(book, axis, |book|);
    SortBySorts(book, axis, |book|);
    forall r: nat, t: nat | r < t < |book|
      ensures GrayPair(book, axis, Seeded(order), r, t)
    {
      SeedPair(book, axis, order, e, r, t);
    }
  }

  lemma SeedPair(book: seq<Vec>, axis: nat, order: seq<nat>, e: nat, r: nat, t: nat)
    requires |order| == Pow2(e) && Along(book, axis, order) && r < t < |order|
    ensures GrayPair(book, axis, Seeded(order), r, t)
  {
    hide Gray, Precedes, Along, Seeded;
    SeededAt(order, e, r);
    SeededAt(order, e, t);
    AlongAt(book, axis, order, r, t);
  }

  /** Scatter the order into label positions; a Gray code past the end is skipped. */
  method Seed(order: seq<nat>, e: nat) returns (position: seq<nat>)
    requires Perm(order, Pow2(e))
    ensures position == Seeded(order) && Perm(position, Pow2(e))
  {
    hide Gray, UnGray;
    var k := Pow2(e);
    position := seq(k, _ => 0);
    var rank := 0;
    while rank < |order|
      invariant 0 <= rank <= k && |position| == k
      invariant forall r: nat :: r < rank ==> Gray(r) < k && position[Gray(r)] == order[r]
    {
      GrayPermutes(rank, e);
      forall r: nat | r < rank
        ensures Gray(r) != Gray(rank)
      {
        GrayPermutes(r, e);
      }
      position := position[Gray(rank) := order[rank]];
      rank := rank + 1;
    }
    forall g: nat | g < k
      ensures position[g] == Seeded(order)[g]
    {
      GrayPermutes(g, e);
    }
    SeedIsPerm(order, e);
  }

  /** No exchange of two labels lowers the displacement. */
  ghost predicate LocallyOptimal(book: seq<Vec>, bits: nat, position: seq<nat>)
    requires Perm(position, |book|)
  {
    forall i, j :: 0 <= i < j < |book| ==> SwapValue(book, bits, position, i, j) >= Spread(Placed(book, position), bits)
  }

  ghost function SwapValue(book: seq<Vec>, bits: nat, position: seq<nat>, i: nat, j: nat): real
    requires Perm(position, |book|) && i < |book| && j < |book|
  {
    SwapKeepsPerm(position, |book|, i, j);
    Spread(Placed(book, Swapped(position, i, j)), bits)
  }

  /** Pairs tried before `(i, j)` in the pass's order. */
  predicate Tried(x: nat, y: nat, i: nat, j: nat) {
    x < i || (x == i && y < j)
  }

  /** One pass: every pair of labels once, each exchange kept only if it lowers the displacement. */
  method Pass(book: seq<Vec>, bits: nat, start: seq<nat>, value: real) returns (position: seq<nat>, current: real, swaps: nat)
    requires Perm(start, |book|) && value == Spread(Placed(book, start), bits)
    ensures Perm(position, |book|) && current == Spread(Placed(book, position), bits)
    ensures if swaps > 0 then current < value else position == start && current == value && LocallyOptimal(book, bits, position)
  {
    hide Spread, Placed, Swapped;
    position, current, swaps := start, value, 0;
    var k := |book|;
    var i := 0;
    while i < k
      invariant 0 <= i <= k && Perm(position, k) && current == Spread(Placed(book, position), bits)
      invariant if swaps > 0 then current < value else position == start && current == value
      invariant swaps == 0 ==> forall x, y :: 0 <= x < y < k && x < i ==> SwapValue(book, bits, start, x, y) >= value
    {
      var j := i + 1;
      while j < k
        invariant i < j <= k && Perm(position, k) && current == Spread(Placed(book, position), bits)
        invariant if swaps > 0 then current < value else position == start && current == value
        invariant swaps == 0 ==> forall x, y :: 0 <= x < y < k && Tried(x, y, i, j) ==> SwapValue(book, bits, start, x, y) >= value
      {
        SwapKeepsPerm(position, k, i, j);
        SwapTwice(position, i, j);
        var swapped := Swapped(position, i, j);
        var candidate := DisplacementOf(book, swapped, bits);
        if candidate < current {
          position := swapped;
          current := candidate;
          swaps := swaps + 1;
        } else {
          position := Swapped(swapped, i, j);
        }
        j := j + 1;
      }
      i := i + 1;
    }
  }

  lemma SwapTwice(p: seq<nat>, i: nat, j: nat)
    requires i < |p| && j < |p|
    ensures Swapped(Swapped(p, i, j), i, j) == p
  {}

  /** `label as u8`, for every centroid. */
  method Invert(position: seq<nat>) returns (newLabel: seq<nat>)
    requires Perm(position, |position|) && |position| <= 256
    ensures Inverse(newLabel, position, |position|)
  {
    var k := |position|;
    newLabel := seq(k, _ => 0);
    var x := 0;
    while x < k
      invariant 0 <= x <= k && |newLabel| == k
      invariant forall y :: 0 <= y < x ==> newLabel[position[y]] == y
    {
      newLabel := newLabel[position[x] := x % 256];
      x := x + 1;
    }
  }

  datatype Permutation = Permutation(newLabel: seq<nat>, before: real, after: real, swaps: nat)

  /** What a search guarantees of its result, whatever it was cut short at. */
  ghost predicate Sensible(book: seq<Vec>, bits: nat, p: Permutation, position: seq<nat>) {
    && Inverse(p.newLabel, position, |book|) && Perm(p.newLabel, |book|)
    && p.before == Spread(book, bits)
    && p.after == Spread(Placed(book, position), bits)
    && p.after == Spread(Relabelled(book, p.newLabel), bits)
  }

  /**
   `optimise`: a labelling, its displacement before and after. `settled` says the last pass
   found nothing to exchange, and then no exchange of two labels lowers the displacement.
   */
  method Optimise(book: seq<Vec>, ds: nat, bits: nat, maxPasses: nat)
    returns (p: Permutation, ghost position: seq<nat>, ghost settled: bool, ghost axis: nat, ghost seed: seq<nat>)
    requires |book| == Pow2(bits) <= 256
    ensures Sensible(book, bits, p, position)
    ensures Widest(book, ds, axis) && GrayAlong(book, axis, seed) && Perm(seed, |book|)
    ensures p.after <= Spread(Placed(book, seed), bits)
    ensures settled ==> LocallyOptimal(book, bits, position)
    ensures !settled ==> p.swaps >= maxPasses
    ensures p.swaps == 0 ==> position == seed
  {
    hide Spread, Placed, SortBy, Seeded, Relabelled, Widest, GrayAlong;
    var widest := WidestAxis(book, ds);
    var order := SortBy(book, widest, |book|);
    SortByPermutes(book, widest, |book|);
    SeedIsGrayAlong(book, widest, bits);
    var at := Seed(order, bits);
    axis, seed := widest, at;
    IdentityPlaces(book);
    var before := DisplacementOf(book, Identity(|book|), bits);
    var current := DisplacementOf(book, at, bits);
    var swaps := 0;
    settled := false;
    var pass := 0;
    while pass < maxPasses
      invariant 0 <= pass <= maxPasses && !settled && swaps >= pass
      invariant Perm(at, |book|) && current == Spread(Placed(book, at), bits)
      invariant swaps == 0 ==> at == seed
      invariant current <= Spread(Placed(book, seed), bits)
    {
      var kept;
      at, current, kept := Pass(book, bits, at, current);
      swaps := swaps + kept;
      if kept == 0 {
        settled := true;
        break;
      }
      pass := pass + 1;
    }
    var newLabel := Invert(at);
    position := at;
    InverseIsPerm(newLabel, at, |book|);
    RelabelledIsPlaced(book, newLabel, at);
    p := Permutation(newLabel, before, current, swaps);
  }

  lemma IdentityPlaces(book: seq<Vec>)
    ensures Placed(book, Identity(|book|)) == book
  {}

  // ---------------------------------------------------------------- applying a permutation

  /** The label of `c`: zero past the end of the map. */
  function LabelAt(newLabel: seq<nat>, c: nat): nat {
    if c < |newLabel| then newLabel[c] else 0
  }

  /** A centroid of zeros, where nothing has been copied. */
  function Origin(book: seq<Vec>): Vec {
    if book == [] then [] else seq(|book[0]|, _ => 0.0)
  }

  /** The relabelled codebook: centroid `c` under its label, the last of those that share one, none past the end. */
  function Relabelled(book: seq<Vec>, newLabel: seq<nat>): (at: seq<Vec>)
    ensures |at| == |book|
  {
    RelabelFrom(book, newLabel, |book|)
  }

  /** After the first `n` centroids have been copied. */
  function RelabelFrom(book: seq<Vec>, newLabel: seq<nat>, n: nat): (at: seq<Vec>)
    requires n <= |book|
    ensures |at| == |book|
  {
    if n == 0 then seq(|book|, _ => Origin(book))
    else
      var at := RelabelFrom(book, newLabel, n - 1);
      if LabelAt(newLabel, n - 1) < |book| then at[LabelAt(newLabel, n - 1) := book[n - 1]] else at
  }

  lemma {:induction false} RelabelKeeps(book: seq<Vec>, newLabel: seq<nat>, n: nat, c: nat)
    requires Perm(newLabel, |book|) && c < n <= |book|
    ensures RelabelFrom(book, newLabel, n)[newLabel[c]] == book[c]
    decreases n
  {
    if c < n - 1 {
      RelabelKeeps(book, newLabel, n - 1, c);
    }
  }

  /** Centroid `c` has label `x`: its own in the map, or zero past the end of it. */
  predicate Claims(newLabel: seq<nat>, c: nat, x: nat) {
    (if c < |newLabel| then newLabel[c] else 0) == x
  }

  /** `c` is the last of the first `n` centroids with label `x`. */
  predicate LastWith(newLabel: seq<nat>, n: nat, c: nat, x: nat) {
    c < n && Claims(newLabel, c, x) && forall e: nat | c < e < n :: !Claims(newLabel, e, x)
  }

  /** Whatever the map, a label holds the last centroid that has it, and zeros if none does. */
  lemma {:induction false} LabelHolds(book: seq<Vec>, newLabel: seq<nat>, n: nat, x: nat)
    requires n <= |book| && x < |book|
    ensures forall c: nat | LastWith(newLabel, n, c, x) :: RelabelFrom(book, newLabel, n)[x] == book[c]
    ensures (forall c: nat | c < n :: !Claims(newLabel, c, x)) ==>
              RelabelFrom(book, newLabel, n)[x] == seq(|book[0]|, _ => 0.0)
    decreases n
  {
    if n > 0 {
      LabelHolds(book, newLabel, n - 1, x);
      assert Claims(newLabel, n - 1, x) <==> LabelAt(newLabel, n - 1) == x;
      forall c: nat | LastWith(newLabel, n, c, x)
        ensures RelabelFrom(book, newLabel, n)[x] == book[c]
      {
        if c < n - 1 {
          assert LastWith(newLabel, n - 1, c, x);
        }
      }
    }
  }

  /** Relabelling the codebook by the inverse of a placement is the placement. */
  lemma RelabelledIsPlaced(book: seq<Vec>, newLabel: seq<nat>, position: seq<nat>)
    requires Inverse(newLabel, position, |book|) && Perm(newLabel, |book|)
    ensures Relabelled(book, newLabel) == Placed(book, position)
  {
    hide RelabelFrom;
    forall x | 0 <= x < |book|
      ensures Relabelled(book, newLabel)[x] == book[position[x]]
    {
      RelabelKeeps(book, newLabel, |book|, position[x]);
    }
  }

  method PermuteCentroids(book: seq<Vec>, newLabel: seq<nat>) returns (at: seq<Vec>)
    ensures at == Relabelled(book, newLabel)
  {
    at := seq(|book|, _ => Origin(book));
    var c := 0;
    while c < |book|
      invariant 0 <= c <= |book| && at == RelabelFrom(book, newLabel, c)
    {
      if LabelAt(newLabel, c) < |book| {
        at := at[LabelAt(newLabel, c) := book[c]];
      }
      c := c + 1;
    }
  }

  /** Position `i` holds a code of subspace `j`: every `m`th from `j`. */
  predicate OnStride(i: nat, j: nat, m: nat)
    requires m > 0
  {
    i >= j && (i - j) % m == 0
  }

  /** Subspace `j`'s codes relabelled; a code past the permutation, and every other subspace, as it was. */
  function CodeAfter(codes: seq<nat>, m: nat, j: nat, newLabel: seq<nat>, i: nat): nat
    requires i < |codes| && m > 0
  {
    if OnStride(i, j, m) && codes[i] < |newLabel| then newLabel[codes[i]] else codes[i]
  }

  /** Subspace `j`'s codes rewritten in place. */
  method PermuteCodes(codes: array<nat>, m: nat, j: nat, newLabel: seq<nat>)
    requires m > 0
    modifies codes
    ensures forall i :: 0 <= i < codes.Length ==> codes[i] == CodeAfter(old(codes[..]), m, j, newLabel, i)
  {
    hide OnStride;
    ghost var was := codes[..];
    var i := j;
    StrideStart(j, m);
    while i < codes.Length
      invariant OnStride(i, j, m)
      invariant forall x :: 0 <= x < i && x < codes.Length ==> codes[x] == CodeAfter(was, m, j, newLabel, x)
      invariant forall x :: i <= x < codes.Length ==> codes[x] == was[x]
    {
      if codes[i] < |newLabel| {
        codes[i] := newLabel[codes[i]];
      }
      StrideSkips(i, j, m);
      i := i + m;
    }
  }

  lemma StrideStart(j: nat, m: nat)
    requires m > 0
    ensures OnStride(j, j, m)
    ensures forall x: nat :: x < j ==> !OnStride(x, j, m)
  {}

  /** Between two stops of the stride there is no other, and the next is one. */
  lemma StrideSkips(i: nat, j: nat, m: nat)
    requires m > 0 && OnStride(i, j, m)
    ensures forall x: nat :: i < x < i + m ==> !OnStride(x, j, m)
    ensures OnStride(i + m, j, m)
  {
    hide OnStride;
    forall x: nat | i < x < i + m
      ensures !OnStride(x, j, m)
    {
      OffStride(i, j, m, x);
    }
    NextStop(i, j, m);
  }

  lemma OffStride(i: nat, j: nat, m: nat, x: nat)
    requires m > 0 && OnStride(i, j, m) && i < x < i + m
    ensures !OnStride(x, j, m)
  {
    var a, b: nat := i - j, x - j;
    DivMod(a, m);
    QuotientIs(b, m, a / m);
  }

  lemma NextStop(i: nat, j: nat, m: nat)
    requires m > 0 && OnStride(i, j, m)
    ensures OnStride(i + m, j, m)
  {
    var a, b: nat := i - j, i + m - j;
    DivMod(a, m);
    Distribute(a / m, 1, m);
    QuotientIs(b, m, a / m + 1);
  }

  /**
   Losslessness: relabelling the codebook and the codes together leaves every reconstruction
   in the subspace exactly as it was, and every other subspace's codes alone.
   */
  lemma RelabellingIsLossless(book: seq<Vec>, newLabel: seq<nat>, codes: seq<nat>, m: nat, j: nat, i: nat)
    requires Perm(newLabel, |book|) && m > 0 && i < |codes| && codes[i] < |book|
    ensures OnStride(i, j, m) ==>
              && CodeAfter(codes, m, j, newLabel, i) < |book|
              && Relabelled(book, newLabel)[CodeAfter(codes, m, j, newLabel, i)] == book[codes[i]]
    ensures !OnStride(i, j, m) ==> CodeAfter(codes, m, j, newLabel, i) == codes[i]
  {
    hide RelabelFrom, OnStride;
    RelabelKeeps(book, newLabel, |book|, codes[i]);
  }
}
