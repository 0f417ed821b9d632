/** Stage one: score every record against the lookup table and offer it to the heap. */
module Scan {
  import opened Options
  import opened Arith
  import opened Ranking
  import opened BoundedHeap

  type Codes = seq<bv8>

  // ---------------------------------------------------------------- scores

  /** Two's-complement wrap of a 32-bit signed sum. */
  function Wrap(x: int): int {
    (x + 0x8000_0000) % 0x1_0000_0000 - 0x8000_0000
  }

  function CodeAt(codes: Codes, i: nat): (c: nat)
    requires i < |codes|
    ensures c < 256
  {
    codes[i] as nat
  }

  /** One table lookup, zero for an out-of-range entry. */
  function Lookup(table: seq<int>, at: nat): int {
    if at < |table| then table[at] else 0
  }

  /** Wrapping sum of the first `n` lookups by index arithmetic. */
  function Indexed(record: Codes, table: seq<int>, centroids: nat, n: nat): int
    requires n <= |record|
  {
    if n == 0 then 0
    else Wrap(Indexed(record, table, centroids, n - 1)
              + Lookup(table, (n - 1) * centroids + CodeAt(record, n - 1)))
  }

  /** The portable scorer: one table row split off per code, stopping at a short row. */
  function Split(record: Codes, n: nat, rest: seq<int>, centroids: nat, acc: int): int
    requires n <= |record|
    decreases |record| - n
  {
    if n == |record| || |rest| < centroids then acc
    else
      var c := CodeAt(record, n);
      Split(record, n + 1, rest[centroids..], centroids,
            if c < centroids then Wrap(acc + rest[c]) else acc)
  }

  /** One record's score: index arithmetic on a 64-bit target, row splitting elsewhere. */
  function Score(wide: bool, record: Codes, table: seq<int>, centroids: nat): int {
    if wide then Indexed(record, table, centroids, |record|) else Split(record, 0, table, centroids, 0)
  }

  /** Code `j` makes index arithmetic read an entry that row splitting does not. */
  predicate StrayRead(record: Codes, size: nat, centroids: nat, j: nat)
    requires j < |record|
  {
    var c := CodeAt(record, j);
    j * centroids + c < size && (c >= centroids || (j + 1) * centroids > size)
  }

  predicate NoStrays(record: Codes, size: nat, centroids: nat) {
    forall j :: 0 <= j < |record| ==> !StrayRead(record, size, centroids, j)
  }

  lemma WrapIdentity(x: int)
    requires -0x8000_0000 <= x < 0x8000_0000
    ensures Wrap(x) == x
  {}

  lemma WrapRange(x: int)
    ensures -0x8000_0000 <= Wrap(x) < 0x8000_0000
  {}

  lemma {:induction false} IndexedRange(record: Codes, table: seq<int>, centroids: nat, n: nat)
    requires n <= |record|
    ensures -0x8000_0000 <= Indexed(record, table, centroids, n) < 0x8000_0000
  {
    if n > 0 {
      WrapRange(Indexed(record, table, centroids, n - 1)
                + Lookup(table, (n - 1) * centroids + CodeAt(record, n - 1)));
    }
  }

  /** Without a stray read the two scorers agree, from any row on. */
  lemma {:induction false} SplitIsIndexed(record: Codes, table: seq<int>, centroids: nat, n: nat)
    requires n <= |record| && n * centroids <= |table| && NoStrays(record, |table|, centroids)
    ensures Split(record, n, table[n * centroids..], centroids, Indexed(record, table, centroids, n))
         == Indexed(record, table, centroids, |record|)
    decreases |record| - n
  {
    hide Wrap, CodeAt;
    if n < |record| {
      var acc := Indexed(record, table, centroids, n);
      var c := CodeAt(record, n);
      IndexedRange(record, table, centroids, n);
      WrapIdentity(acc);
      assert (n + 1) * centroids == n * centroids + centroids;
      assert !StrayRead(record, |table|, centroids, n);
      if (n + 1) * centroids <= |table| {
        assert table[n * centroids..][centroids..] == table[(n + 1) * centroids..];
        SplitIsIndexed(record, table, centroids, n + 1);
      } else {
        ShortTable(record, table, centroids, n, |record|);
      }
    }
  }

  /** Past the last whole row, index arithmetic without strays reads nothing. */
  lemma {:induction false} ShortTable(record: Codes, table: seq<int>, centroids: nat, n: nat, m: nat)
    requires n <= m <= |record| && (n + 1) * centroids > |table| && NoStrays(record, |table|, centroids)
    ensures Indexed(record, table, centroids, m) == Indexed(record, table, centroids, n)
    decreases m
  {
    hide Wrap, CodeAt;
    if m > n {
      ShortTable(record, table, centroids, n, m - 1);
      assert !StrayRead(record, |table|, centroids, m - 1);
      ProductOrder(n + 1, m, centroids);
      IndexedRange(record, table, centroids, m - 1);
      WrapIdentity(Indexed(record, table, centroids, m - 1));
    }
  }

  lemma ScoresAgree(record: Codes, table: seq<int>, centroids: nat)
    requires NoStrays(record, |table|, centroids)
    ensures Score(false, record, table, centroids) == Score(true, record, table, centroids)
  {
    assert table[0 * centroids..] == table;
    SplitIsIndexed(record, table, centroids, 0);
  }

  /** With 256 centroids and whole rows no code can stray. */
  lemma ByteCodesNeverStray(record: Codes, rows: nat, centroids: nat)
    requires centroids >= 256
    ensures NoStrays(record, rows * centroids, centroids)
  {
    forall j | 0 <= j < |record|
      ensures !StrayRead(record, rows * centroids, centroids, j)
    {
      if j < rows {
        assert (j + 1) * centroids <= rows * centroids;
      } else {
        assert j * centroids >= rows * centroids;
      }
    }
  }

  function Position(record: Codes, centroids: nat, j: nat): nat
    requires j < |record|
  {
    j * centroids + CodeAt(record, j)
  }

  /** How many of the first `n` codes read entry `p`; with `kept`, only those that do not stray. */
  function Reads(record: Codes, size: nat, centroids: nat, p: nat, n: nat, kept: bool): (r: nat)
    requires n <= |record|
    ensures r <= n
  {
    if n == 0 then 0
    else Reads(record, size, centroids, p, n - 1, kept)
         + if Position(record, centroids, n - 1) == p && !(kept && StrayRead(record, size, centroids, n - 1)) then 1 else 0
  }

  /** The table that is one at entry `p` and zero elsewhere. */
  function Indicator(size: nat, p: nat): (t: seq<int>)
    ensures |t| == size && forall i :: 0 <= i < size ==> t[i] == if i == p then 1 else 0
  {
    seq(size, i => if i == p then 1 else 0)
  }

  lemma {:induction false} IndexedCounts(record: Codes, size: nat, centroids: nat, p: nat, n: nat)
    requires n <= |record| < 0x8000_0000 && p < size
    ensures Indexed(record, Indicator(size, p), centroids, n) == Reads(record, size, centroids, p, n, false)
  {
    hide Wrap, CodeAt;
    if n > 0 {
      IndexedCounts(record, size, centroids, p, n - 1);
      WrapIdentity(Reads(record, size, centroids, p, n, false));
    }
  }

  lemma {:induction false} SplitCounts(record: Codes, size: nat, centroids: nat, p: nat, n: nat)
    requires n <= |record| < 0x8000_0000 && p < size && n * centroids <= size
    ensures Split(record, n, Indicator(size, p)[n * centroids..], centroids,
                  Reads(record, size, centroids, p, n, true))
         == Reads(record, size, centroids, p, |record|, true)
    decreases |record| - n
  {
    hide Wrap, CodeAt;
    if n < |record| {
      var t := Indicator(size, p);
      assert (n + 1) * centroids == n * centroids + centroids;
      if (n + 1) * centroids <= size {
        var row, c := n * centroids, CodeAt(record, n);
        assert t[row..][centroids..] == t[(n + 1) * centroids..];
        assert c < centroids ==> t[row..][c] == if row + c == p then 1 else 0;
        assert StrayRead(record, size, centroids, n) <==> row + c < size && c >= centroids;
        WrapIdentity(Reads(record, size, centroids, p, n, true));
        WrapIdentity(Reads(record, size, centroids, p, n, true) + 1);
        SplitCounts(record, size, centroids, p, n + 1);
      } else {
        NothingKept(record, size, centroids, p, n, |record|);
      }
    }
  }

  lemma {:induction false} NothingKept(record: Codes, size: nat, centroids: nat, p: nat, n: nat, m: nat)
    requires n <= m <= |record| && (n + 1) * centroids > size && p < size
    ensures Reads(record, size, centroids, p, m, true) == Reads(record, size, centroids, p, n, true)
    decreases m
  {
    hide CodeAt;
    if m > n {
      NothingKept(record, size, centroids, p, n, m - 1);
      ScaleMonotone(n + 1, m, centroids);
      assert Position(record, centroids, m - 1) < size ==> StrayRead(record, size, centroids, m - 1);
    }
  }

  lemma {:induction false} StrayIsLost(record: Codes, size: nat, centroids: nat, j: nat, n: nat)
    requires j < |record| && n <= |record| && StrayRead(record, size, centroids, j)
    ensures var p := Position(record, centroids, j);
            Reads(record, size, centroids, p, n, true) + (if j < n then 1 else 0)
            <= Reads(record, size, centroids, p, n, false)
  {
    hide CodeAt, StrayRead;
    if n > 0 {
      StrayIsLost(record, size, centroids, j, n - 1);
    }
  }

  /**
   The two scorers return the same value on every table of a given size exactly when no
   code of the record strays. (Row lengths are far below the 2^31 that could wrap.)
   */
  lemma ScorersAgreeIffNoStrays(record: Codes, size: nat, centroids: nat)
    requires |record| < 0x8000_0000
    ensures NoStrays(record, size, centroids) <==>
      forall table: seq<int> :: |table| == size ==>
        Score(false, record, table, centroids) == Score(true, record, table, centroids)
  {
    if NoStrays(record, size, centroids) {
      forall table: seq<int> | |table| == size
        ensures Score(false, record, table, centroids) == Score(true, record, table, centroids)
      {
        ScoresAgree(record, table, centroids);
      }
    } else {
      var j :| 0 <= j < |record| && StrayRead(record, size, centroids, j);
      var p := Position(record, centroids, j);
      var t := Indicator(size, p);
      IndexedCounts(record, size, centroids, p, |record|);
      assert t[0 * centroids..] == t;
      SplitCounts(record, size, centroids, p, 0);
      StrayIsLost(record, size, centroids, j, |record|);
      assert Score(false, record, t, centroids) != Score(true, record, t, centroids);
    }
  }

  /** A stray in the smallest case: one code past its one-entry row. */
  lemma StrayCodesDisagree()
    ensures var record: Codes := [1];
            Score(true, record, [0, 5], 1) == 5 && Score(false, record, [0, 5], 1) == 0
  {
    var record: Codes := [1];
    assert CodeAt(record, 0) == 1;
    assert Indexed(record, [0, 5], 1, 0) == 0;
    assert Indexed(record, [0, 5], 1, 1) == Wrap(5);
    assert Split(record, 1, [0, 5][1..], 1, 0) == 0;
  }

  // ---------------------------------------------------------------- what a score is

  /** The entries the first `n` codes name, row by row, added up; a name past the table adds nothing. */
  function TableSum(record: Codes, table: seq<int>, centroids: nat, n: nat): int
    requires n <= |record|
  {
    if n == 0 then 0
    else
      var at := (n - 1) * centroids + (record[n - 1] as int);
      TableSum(record, table, centroids, n - 1) + if at < |table| then table[at] else 0
  }

  lemma WrapStep(x: int, y: int, z: int)
    requires (x - y) % 0x1_0000_0000 == 0
    ensures (Wrap(x + z) - (y + z)) % 0x1_0000_0000 == 0
  {}

  lemma {:induction false} IndexedIsSum(record: Codes, table: seq<int>, centroids: nat, n: nat)
    requires n <= |record|
    ensures (Indexed(record, table, centroids, n) - TableSum(record, table, centroids, n)) % 0x1_0000_0000 == 0
  {
    hide Wrap;
    if n > 0 {
      IndexedIsSum(record, table, centroids, n - 1);
      WrapStep(Indexed(record, table, centroids, n - 1), TableSum(record, table, centroids, n - 1),
               Lookup(table, (n - 1) * centroids + CodeAt(record, n - 1)));
    }
  }

  /** Without strays either scorer returns the 32-bit signed word congruent to the sum of the entries named. */
  lemma ScoreIsSum(wide: bool, record: Codes, table: seq<int>, centroids: nat)
    requires NoStrays(record, |table|, centroids)
    ensures (Score(wide, record, table, centroids) - TableSum(record, table, centroids, |record|)) % 0x1_0000_0000 == 0
    ensures -0x8000_0000 <= Score(wide, record, table, centroids) < 0x8000_0000
  {
    hide Indexed, Split, TableSum, NoStrays;
    ScoresAgree(record, table, centroids);
    IndexedIsSum(record, table, centroids, |record|);
    IndexedRange(record, table, centroids, |record|);
    assert Score(true, record, table, centroids) == Indexed(record, table, centroids, |record|);
  }

  // ---------------------------------------------------------------- streams

  function Record(codes: Codes, width: nat, i: nat): (r: Codes)
    requires (i + 1) * width <= |codes|
    ensures |r| == width
  {
    assert i * width + width == (i + 1) * width;
    codes[i * width..i * width + width]
  }

  /** Whole records in `codes`; a partial trailing one does not count. */
  function Count(codes: Codes, width: nat): (n: nat)
    ensures n * width <= |codes|
    ensures width > 0 ==> |codes| < (n + 1) * width
  {
    if width == 0 then 0 else |codes| / width
  }

  /** The candidates a scan offers, in order, from record `from` up to record `to`. */
  function Stream(wide: bool, codes: Codes, width: nat, firstId: nat, table: seq<int>, centroids: nat,
                  from: nat, end: nat): (s: seq<Candidate>)
    requires from <= end && end * width <= |codes|
    ensures |s| == end - from
    decreases end - from
  {
    if from == end then []
    else
      Stream(wide, codes, width, firstId, table, centroids, from, end - 1)
      + [Candidate(Score(wide, Last(codes, width, end), table, centroids), firstId + (end - 1))]
  }

  function Last(codes: Codes, width: nat, end: nat): Codes
    requires 0 < end && end * width <= |codes|
  {
    Record(codes, width, end - 1)
  }

  // ---------------------------------------------------------------- runs over a heap

  // A heap run over a stream of candidates is a function of the held sequence and the
  // stream, so the scalar loop, the four-wide loop and a block-by-block scan can be compared
  // for identical arrays and identical counters, not only for the same answer.

  datatype ScanStats = ScanStats(scanned: nat, offered: nat, evicted: nat)

  function AddStats(a: ScanStats, b: ScanStats): ScanStats {
    ScanStats(a.scanned + b.scanned, a.offered + b.offered, a.evicted + b.evicted)
  }

  /** Held candidates and counters after a stream. */
  datatype Run = Run(items: seq<Candidate>, stats: ScanStats)

  predicate Accepts(items: seq<Candidate>, capacity: nat, c: Candidate)
    requires |items| <= capacity && capacity > 0
  {
    |items| < capacity || Worse(items[0], c)
  }

  /** One more candidate: tested against the threshold, then pushed if it passes. */
  function Advance(r: Run, capacity: nat, c: Candidate): (r': Run)
    requires |r.items| <= capacity && capacity > 0
    ensures |r.items| <= |r'.items| <= capacity
  {
    var pushed := Pushed(r.items, capacity, c);
    Run(pushed.0,
        AddStats(r.stats,
                 ScanStats(1, if Accepts(r.items, capacity, c) then 1 else 0,
                           if pushed.1.Some? then 1 else 0)))
  }

  /** A run carried on over a stream. */
  function Resume(r: Run, capacity: nat, s: seq<Candidate>): (r': Run)
    requires |r.items| <= capacity && capacity > 0
    ensures |r.items| <= |r'.items| <= capacity
    decreases |s|
  {
    if s == [] then r else Advance(Resume(r, capacity, s[..|s| - 1]), capacity, s[|s| - 1])
  }

  function Consume(items: seq<Candidate>, capacity: nat, s: seq<Candidate>): (r: Run)
    requires |items| <= capacity && capacity > 0
    ensures |items| <= |r.items| <= capacity
  {
    Resume(Run(items, ScanStats(0, 0, 0)), capacity, s)
  }

  lemma {:induction false} ResumeConcat(r: Run, capacity: nat, a: seq<Candidate>, b: seq<Candidate>)
    requires |r.items| <= capacity && capacity > 0
    ensures Resume(r, capacity, a + b) == Resume(Resume(r, capacity, a), capacity, b)
    decreases |b|
  {
    hide Advance;
    if b == [] {
      assert a + b == a;
    } else {
      assert (a + b)[..|a + b| - 1] == a + b[..|b| - 1];
      ResumeConcat(r, capacity, a, b[..|b| - 1]);
    }
  }

  /** Counters accumulate: a run from non-zero counters adds the fresh run's counts. */
  lemma {:induction false} ResumeShift(r: Run, capacity: nat, s: seq<Candidate>)
    requires |r.items| <= capacity && capacity > 0
    ensures var fresh' := Consume(r.items, capacity, s);
            Resume(r, capacity, s) == Run(fresh'.items, AddStats(r.stats, fresh'.stats))
    decreases |s|
  {
    if s != [] {
      ResumeShift(r, capacity, s[..|s| - 1]);
    }
  }

  /** Scanning in parts is scanning once: same candidates in the same places, summed counters. */
  lemma ConsumeConcat(items: seq<Candidate>, capacity: nat, a: seq<Candidate>, b: seq<Candidate>)
    requires |items| <= capacity && capacity > 0
    ensures var first := Consume(items, capacity, a);
            var second := Consume(first.items, capacity, b);
            Consume(items, capacity, a + b) == Run(second.items, AddStats(first.stats, second.stats))
  {
    ResumeConcat(Run(items, ScanStats(0, 0, 0)), capacity, a, b);
    ResumeShift(Consume(items, capacity, a), capacity, b);
  }

  /** A run agrees with offering the stream to the bounded sorted list. */
  lemma {:induction false} ConsumeIsOfferAll(items: seq<Candidate>, l: seq<Candidate>, capacity: nat,
                                             s: seq<Candidate>)
    requires Lists(l, items) && |items| <= capacity && capacity > 0
    ensures |l| <= capacity
    ensures Lists(OfferAll(capacity, l, s), Consume(items, capacity, s).items)
    decreases |s|
  {
    hide Lists;
    ListsFacts(l, items);
    if s != [] {
      var t := s[..|s| - 1];
      var c := s[|s| - 1];
      ConsumeIsOfferAll(items, l, capacity, t);
      var before := Consume(items, capacity, t).items;
      PushIsOffer(before, OfferAll(capacity, l, t), capacity, c);
      OfferAllConcat(capacity, l, t, [c]);
      assert t + [c] == s;
      assert OfferAll(capacity, OfferAll(capacity, l, t), [c])
          == Offer(capacity, OfferAll(capacity, l, t), c).0;
    }
  }

  /** Every offer either grows the heap or evicts; everything scanned is counted. */
  lemma {:induction false} ConsumeCounts(items: seq<Candidate>, capacity: nat, s: seq<Candidate>)
    requires |items| <= capacity && capacity > 0
    ensures var r := Consume(items, capacity, s);
            && r.stats.scanned == |s|
            && r.stats.offered == r.stats.evicted + |r.items| - |items|
            && |r.items| == Min(capacity, |items| + |s|)
    decreases |s|
  {
    if s != [] {
      ConsumeCounts(items, capacity, s[..|s| - 1]);
    }
  }

  /**
   Scanning into an empty heap of capacity `r` holds exactly the first `r` of all
   candidates ranked, so whatever it left out has a lower score or no lower an id on a tie;
   and offered - evicted is how many that is.
   */
  lemma ScanHoldsTop(capacity: nat, s: seq<Candidate>)
    requires capacity > 0
    ensures var r := Consume([], capacity, s);
            && Lists(Top(capacity, s), r.items)
            && Keeps(multiset(r.items), multiset(s))
            && |r.items| == (if capacity <= |s| then capacity else |s|)
            && r.stats.offered - r.stats.evicted == |r.items|
  {
    hide Keeps, Ranked;
    TopIsBest(capacity, s);
    ConsumeIsOfferAll([], [], capacity, s);
    OfferAllIsTop(capacity, [], s);
    assert [] + s == s;
    assert Top(capacity, []) == [];
    ConsumeCounts([], capacity, s);
  }

  /** How many candidates had, when they came, fewer than `r` before them that rank no worse. */
  function Entrants(r: nat, s: seq<Candidate>): (n: nat)
    ensures n <= |s|
  {
    if s == [] then 0
    else Entrants(r, s[..|s| - 1]) + if Ahead(s[|s| - 1], s[..|s| - 1]) < r then 1 else 0
  }

  /** The threshold test of a heap that holds the best of `s`. */
  lemma AcceptsIff(capacity: nat, s: seq<Candidate>, items: seq<Candidate>, c: Candidate)
    requires capacity > 0 && Lists(Top(capacity, s), items)
    ensures |items| <= capacity
    ensures Accepts(items, capacity, c) <==> Ahead(c, s) < capacity
  {
    hide Worse, Ahead, Ranked;
    ListsFacts(Top(capacity, s), items);
    if |s| >= capacity {
      LastIsWorseIff(capacity, s, c);
    }
  }

  /** `offered` counts exactly those, whatever the order; the rest of the arithmetic gives `evicted`. */
  lemma {:induction false} OfferedAreEntrants(capacity: nat, s: seq<Candidate>)
    requires capacity > 0
    ensures Consume([], capacity, s).stats.offered == Entrants(capacity, s)
    decreases |s|
  {
    hide Ahead, Accepts, Lists;
    if s != [] {
      var t := s[..|s| - 1];
      OfferedAreEntrants(capacity, t);
      ScanHoldsTop(capacity, t);
      AcceptsIff(capacity, t, Consume([], capacity, t).items, s[|s| - 1]);
    }
  }

  // ---------------------------------------------------------------- the loops

  /** The threshold test agrees with the push: what it rejects would change nothing. */
  lemma RefusedPush(items: seq<Candidate>, capacity: nat, c: Candidate)
    requires |items| <= capacity && capacity > 0
    ensures !Accepts(items, capacity, c) ==> Pushed(items, capacity, c) == (items, None)
  {
    hide SiftUp, SiftDown;
  }

  /** Threshold test, then insertion. */
  method OfferOne(h: Heap, c: Candidate, before: ScanStats) returns (after: ScanStats)
    requires h.Valid()
    modifies h`len, h.scores, h.ids
    ensures h.Valid() && h.len >= old(h.len)
    ensures Run(h.Items(), after) == Advance(Run(old(h.Items()), before), h.capacity, c)
    ensures h.scores[h.len..] == old(h.scores[..])[h.len..] && h.ids[h.len..] == old(h.ids[..])[h.len..]
  {
    hide Pushed, IsHeap, Offer, Sorted, Lists;
    RefusedPush(h.Items(), h.capacity, c);
    after := before.(scanned := before.scanned + 1);
    var accept := h.WouldAccept(c.score, c.id);
    if !accept {
      return;
    }
    after := after.(offered := after.offered + 1);
    var evicted := h.Push(c);
    if evicted.Some? {
      after := after.(evicted := after.evicted + 1);
    }
  }

  /** All the candidates of a byte run. */
  function Whole(wide: bool, codes: Codes, width: nat, firstId: nat, table: seq<int>, centroids: nat)
    : (s: seq<Candidate>)
    ensures |s| == Count(codes, width)
  {
    Stream(wide, codes, width, firstId, table, centroids, 0, Count(codes, width))
  }

  /** The scalar scan, one record at a time. */
  method ScanB8(wide: bool, codes: Codes, firstId: nat, width: nat, table: seq<int>, centroids: nat, h: Heap)
    returns (stats: ScanStats)
    requires h.Valid()
    modifies h`len, h.scores, h.ids
    ensures h.Valid() && h.len >= old(h.len)
    ensures Run(h.Items(), stats)
         == Consume(old(h.Items()), h.capacity, Whole(wide, codes, width, firstId, table, centroids))
    ensures h.scores[h.len..] == old(h.scores[..])[h.len..] && h.ids[h.len..] == old(h.ids[..])[h.len..]
  {
    hide Score, Pushed, IsHeap;
    stats := ScanStats(0, 0, 0);
    if width == 0 {
      return;
    }
    var n := Count(codes, width);
    var i := 0;
    while i < n
      invariant 0 <= i <= n && h.Valid() && h.len >= old(h.len)
      invariant i * width <= |codes|
      invariant Run(h.Items(), stats)
             == Consume(old(h.Items()), h.capacity, Stream(wide, codes, width, firstId, table, centroids, 0, i))
      invariant h.scores[h.len..] == old(h.scores[..])[h.len..] && h.ids[h.len..] == old(h.ids[..])[h.len..]
    {
      FitsBelow(i + 1, n, width, |codes|);
      var record := Last(codes, width, i + 1);
      var c := Candidate(Score(wide, record, table, centroids), firstId + i);
      stats := OfferOne(h, c, stats);
      i := i + 1;
    }
  }

  lemma FitsBelow(i: nat, n: nat, width: nat, size: nat)
    requires i <= n && n * width <= size
    ensures i * width <= size
  {
    assert i * width + (n - i) * width == n * width;
  }

  // ---------------------------------------------------------------- four at a time

  /** Four independent accumulator chains over four consecutive records. */
  method FourScores(codes: Codes, base: nat, width: nat, table: seq<int>, centroids: nat)
    returns (scores: seq<int>)
    requires base + 4 * width <= |codes|
    ensures |scores| == 4
    ensures forall k :: 0 <= k < 4 ==> scores[k] == Indexed(At(codes, base, width, k), table, centroids, width)
  {
    hide Wrap, At, Indexed, Lookup, CodeAt;
    ChainStart(codes, base, width, table, centroids);
    var a, b, c, d := 0, 0, 0, 0;
    var j := 0;
    while j < width
      invariant 0 <= j <= width
      invariant a == Indexed(At(codes, base, width, 0), table, centroids, j)
      invariant b == Indexed(At(codes, base, width, 1), table, centroids, j)
      invariant c == Indexed(At(codes, base, width, 2), table, centroids, j)
      invariant d == Indexed(At(codes, base, width, 3), table, centroids, j)
    {
      var row := j * centroids;
      ChainStep(codes, base, width, 0, table, centroids, j);
      ChainStep(codes, base, width, 1, table, centroids, j);
      ChainStep(codes, base, width, 2, table, centroids, j);
      ChainStep(codes, base, width, 3, table, centroids, j);
      a := Wrap(a + Lookup(table, row + CodeAt(codes, base + j)));
      b := Wrap(b + Lookup(table, row + CodeAt(codes, base + width + j)));
      c := Wrap(c + Lookup(table, row + CodeAt(codes, base + 2 * width + j)));
      d := Wrap(d + Lookup(table, row + CodeAt(codes, base + 3 * width + j)));
      j := j + 1;
    }
    scores := [a, b, c, d];
  }

  lemma ChainStart(codes: Codes, base: nat, width: nat, table: seq<int>, centroids: nat)
    requires base + 4 * width <= |codes|
    ensures forall k :: 0 <= k < 4 ==> Indexed(At(codes, base, width, k), table, centroids, 0) == 0
  {}

  /** One add of the `k`-th chain, addressed in the whole run as the loop does. */
  lemma ChainStep(codes: Codes, base: nat, width: nat, k: nat, table: seq<int>, centroids: nat, j: nat)
    requires k < 4 && base + 4 * width <= |codes| && j < width
    ensures base + Offset(width, k) + j < |codes|
    ensures Indexed(At(codes, base, width, k), table, centroids, j + 1)
         == Wrap(Indexed(At(codes, base, width, k), table, centroids, j)
                 + Lookup(table, j * centroids + CodeAt(codes, base + Offset(width, k) + j)))
  {
    hide Wrap, Lookup;
    assert At(codes, base, width, k)[j] == codes[base + Offset(width, k) + j];
  }

  /** `k` records of `width` bytes, for the four the loop handles. */
  function Offset(width: nat, k: nat): nat {
    if k == 0 then 0 else if k == 1 then width else if k == 2 then 2 * width else 3 * width
  }

  /** The `k`-th of the four records from byte `base`. */
  function At(codes: Codes, base: nat, width: nat, k: nat): (r: Codes)
    requires k < 4 && base + 4 * width <= |codes|
    ensures |r| == width
  {
    var from := base + Offset(width, k);
    codes[from..from + width]
  }

  function FourCandidates(scores: seq<int>, id: nat): (s: seq<Candidate>)
    requires |scores| == 4
    ensures |s| == 4
  {
    [Candidate(scores[0], id), Candidate(scores[1], id + 1), Candidate(scores[2], id + 2), Candidate(scores[3], id + 3)]
  }

  lemma RecordIsAt(codes: Codes, width: nat, base: nat, groups: nat, k: nat)
    requires k < 4 && base == 4 * groups * width && base + 4 * width <= |codes|
    ensures (4 * groups + k + 1) * width <= |codes|
    ensures Record(codes, width, 4 * groups + k) == At(codes, base, width, k)
  {
    assert (4 * groups + k) * width == base + k * width;
    assert (4 * groups + k + 1) * width == base + k * width + width;
  }

  /** One group of four extends the stream of indexed scores by its next four candidates. */
  lemma GroupOfFour(codes: Codes, width: nat, firstId: nat, table: seq<int>, centroids: nat,
                    base: nat, groups: nat, scores: seq<int>)
    requires base == 4 * groups * width && base + 4 * width <= |codes| && |scores| == 4
    requires forall k :: 0 <= k < 4 ==> scores[k] == Indexed(At(codes, base, width, k), table, centroids, width)
    ensures 4 * groups * width <= |codes| && (4 * groups + 4) * width <= |codes|
    ensures Stream(true, codes, width, firstId, table, centroids, 0, 4 * groups + 4)
         == Stream(true, codes, width, firstId, table, centroids, 0, 4 * groups)
            + FourCandidates(scores, firstId + 4 * groups)
  {
    hide Indexed, Split, Record;
    var g := 4 * groups;
    RecordIsAt(codes, width, base, groups, 0);
    RecordIsAt(codes, width, base, groups, 1);
    RecordIsAt(codes, width, base, groups, 2);
    RecordIsAt(codes, width, base, groups, 3);
    var s0 := Stream(true, codes, width, firstId, table, centroids, 0, g);
    var s1 := Stream(true, codes, width, firstId, table, centroids, 0, g + 1);
    assert s1 == s0 + [Candidate(scores[0], firstId + g)];
    var s2 := Stream(true, codes, width, firstId, table, centroids, 0, g + 2);
    assert s2 == s1 + [Candidate(scores[1], firstId + g + 1)];
    var s3 := Stream(true, codes, width, firstId, table, centroids, 0, g + 3);
    assert s3 == s2 + [Candidate(scores[2], firstId + g + 2)];
  }

  lemma ScaleMonotone(a: nat, b: nat, width: nat)
    ensures a <= b ==> a * width <= b * width
  {
    if a <= b {
      assert a * width + (b - a) * width == b * width;
    }
  }

  lemma {:induction false} StreamSplit(wide: bool, codes: Codes, width: nat, firstId: nat, table: seq<int>,
                                       centroids: nat, from: nat, mid: nat, end: nat)
    requires from <= mid <= end && end * width <= |codes| && mid * width <= |codes|
    ensures Stream(wide, codes, width, firstId, table, centroids, from, end)
         == Stream(wide, codes, width, firstId, table, centroids, from, mid)
            + Stream(wide, codes, width, firstId, table, centroids, mid, end)
    decreases end
  {
    hide Score, Last;
    if mid < end {
      FitsBelow(end - 1, end, width, |codes|);
      StreamSplit(wide, codes, width, firstId, table, centroids, from, mid, end - 1);
    }
  }

  lemma LastOfRest(codes: Codes, width: nat, at: nat, n: nat)
    requires n > 0 && at * width <= |codes| && n * width <= |codes| - at * width
    ensures (at + n) * width <= |codes|
    ensures Last(codes[at * width..], width, n) == Last(codes, width, at + n)
  {
    var skip, low := at * width, (n - 1) * width;
    assert n * width == low + width;
    assert (at + (n - 1)) * width == skip + low;
    assert (at + n) * width == skip + low + width;
    assert codes[skip..][low..low + width] == codes[skip + low..skip + low + width];
  }

  /** A scan of the rest of the bytes with offset ids continues the stream. */
  lemma {:induction false} StreamShift(wide: bool, codes: Codes, width: nat, firstId: nat, table: seq<int>,
                                       centroids: nat, at: nat, n: nat)
    requires at * width <= |codes| && n * width <= |codes| - at * width
    ensures (at + n) * width <= |codes|
    ensures Stream(wide, codes[at * width..], width, firstId + at, table, centroids, 0, n)
         == Stream(wide, codes, width, firstId, table, centroids, at, at + n)
  {
    hide Score, Last;
    assert (at + n) * width == at * width + n * width;
    if n > 0 {
      FitsBelow(n - 1, n, width, |codes| - at * width);
      StreamShift(wide, codes, width, firstId, table, centroids, at, n - 1);
      LastOfRest(codes, width, at, n);
    }
  }

  lemma CountOfRest(codes: Codes, width: nat, at: nat)
    requires width > 0 && at * width <= |codes|
    ensures at + Count(codes[at * width..], width) == Count(codes, width)
  {
    var n, m := Count(codes, width), Count(codes[at * width..], width);
    assert (at + m) * width == at * width + m * width;
    assert (at + m + 1) * width == at * width + (m + 1) * width;
    ScaleMonotone(at + m + 1, n, width);
    ScaleMonotone(n + 1, at + m, width);
  }

  /**
   Cut a run of codes at any record boundary: scanning the two parts in turn, the second
   with offset ids, leaves the same heap arrays and the same summed counters.
   */
  lemma BlockByBlock(wide: bool, codes: Codes, width: nat, firstId: nat, table: seq<int>, centroids: nat,
                     at: nat, items: seq<Candidate>, capacity: nat)
    requires width > 0 && at * width <= |codes| && |items| <= capacity && capacity > 0
    ensures at <= Count(codes, width)
    ensures Whole(wide, codes, width, firstId, table, centroids)
         == Stream(wide, codes, width, firstId, table, centroids, 0, at)
            + Whole(wide, codes[at * width..], width, firstId + at, table, centroids)
    ensures var first := Consume(items, capacity, Stream(wide, codes, width, firstId, table, centroids, 0, at));
            var second := Consume(first.items, capacity,
                                  Whole(wide, codes[at * width..], width, firstId + at, table, centroids));
            Consume(items, capacity, Whole(wide, codes, width, firstId, table, centroids))
              == Run(second.items, AddStats(first.stats, second.stats))
  {
    hide Consume, Score, Stream, Count;
    CountOfRest(codes, width, at);
    var n := Count(codes, width);
    StreamSplit(wide, codes, width, firstId, table, centroids, 0, at, n);
    StreamShift(wide, codes, width, firstId, table, centroids, at, n - at);
    ConsumeConcat(items, capacity, Stream(wide, codes, width, firstId, table, centroids, 0, at),
                  Whole(wide, codes[at * width..], width, firstId + at, table, centroids));
  }

  /** Offer a group's four candidates in id order. */
  method OfferFour(scores: seq<int>, id: nat, before: ScanStats, h: Heap) returns (stats: ScanStats)
    requires h.Valid() && |scores| == 4
    modifies h`len, h.scores, h.ids
    ensures h.Valid() && h.len >= old(h.len)
    ensures Run(h.Items(), stats)
         == Resume(Run(old(h.Items()), before), h.capacity, FourCandidates(scores, id))
    ensures h.scores[h.len..] == old(h.scores[..])[h.len..] && h.ids[h.len..] == old(h.ids[..])[h.len..]
  {
    hide Advance, IsHeap, Pushed;
    ghost var four := FourCandidates(scores, id);
    stats := before;
    var k := 0;
    while k < 4
      invariant 0 <= k <= 4 && h.Valid() && h.len >= old(h.len)
      invariant Run(h.Items(), stats) == Resume(Run(old(h.Items()), before), h.capacity, four[..k])
      invariant h.scores[h.len..] == old(h.scores[..])[h.len..] && h.ids[h.len..] == old(h.ids[..])[h.len..]
    {
      assert four[..k + 1] == four[..k] + [four[k]];
      stats := OfferOne(h, Candidate(scores[k], id + k), stats);
      k := k + 1;
    }
    assert four[..4] == four;
  }

  /** One iteration of the four-wide loop. */
  method ScanGroup(codes: Codes, firstId: nat, width: nat, table: seq<int>, centroids: nat,
                   base: nat, id: nat, ghost groups: nat, ghost start: seq<Candidate>, before: ScanStats, h: Heap)
    returns (stats: ScanStats)
    requires h.Valid() && |start| <= h.capacity
    requires base + 4 * width <= |codes| && base == 4 * groups * width && id == firstId + 4 * groups
    requires Run(h.Items(), before)
          == Consume(start, h.capacity, Stream(true, codes, width, firstId, table, centroids, 0, 4 * groups))
    modifies h`len, h.scores, h.ids
    ensures h.Valid() && h.len >= old(h.len)
    ensures (4 * groups + 4) * width <= |codes|
    ensures Run(h.Items(), stats)
         == Consume(start, h.capacity, Stream(true, codes, width, firstId, table, centroids, 0, 4 * groups + 4))
    ensures h.scores[h.len..] == old(h.scores[..])[h.len..] && h.ids[h.len..] == old(h.ids[..])[h.len..]
  {
    hide Pushed, IsHeap, Indexed, Resume, FourCandidates, At, Stream;
    var scores := FourScores(codes, base, width, table, centroids);
    GroupOfFour(codes, width, firstId, table, centroids, base, groups, scores);
    ResumeConcat(Run(start, ScanStats(0, 0, 0)), h.capacity,
                 Stream(true, codes, width, firstId, table, centroids, 0, 4 * groups),
                 FourCandidates(scores, id));
    stats := OfferFour(scores, id, before, h);
  }

  /** The candidates of the four-wide loop: indexed scores for whole groups, the target's scorer for the tail. */
  function Fours(wide: bool, codes: Codes, width: nat, firstId: nat, table: seq<int>, centroids: nat)
    : (s: seq<Candidate>)
    ensures |s| == Count(codes, width)
  {
    var n := Count(codes, width);
    FitsBelow(Grouped(n), n, width, |codes|);
    Stream(true, codes, width, firstId, table, centroids, 0, Grouped(n))
    + Stream(wide, codes, width, firstId, table, centroids, Grouped(n), n)
  }

  /** How many of `n` records come in whole groups of four. */
  function Grouped(n: nat): (g: nat)
    ensures g <= n < g + 4
  {
    n / 4 * 4
  }

  /** Four records at a time by index arithmetic, then the scalar scan for the tail. */
  method ScanB8x4(wide: bool, codes: Codes, firstId: nat, width: nat, table: seq<int>, centroids: nat, h: Heap)
    returns (stats: ScanStats)
    requires h.Valid()
    modifies h`len, h.scores, h.ids
    ensures h.Valid() && h.len >= old(h.len)
    ensures Run(h.Items(), stats)
         == Consume(old(h.Items()), h.capacity, Fours(wide, codes, width, firstId, table, centroids))
    ensures h.scores[h.len..] == old(h.scores[..])[h.len..] && h.ids[h.len..] == old(h.ids[..])[h.len..]
  {
    hide Score, Pushed, IsHeap, Indexed, Resume, FourCandidates, At, Sorted, Lists, Stream, Grouped, Fours;
    EmptyStream(wide, codes, width, firstId, table, centroids);
    stats := ScanStats(0, 0, 0);
    ghost var start := h.Items();
    EmptyResume(Run(start, stats), h.capacity);
    if width == 0 {
      return;
    }
    var stride := width * 4;
    var base, id := 0, firstId;
    ghost var groups: nat := 0;
    while base + stride <= |codes|
      invariant h.Valid() && h.len >= old(h.len)
      invariant 0 <= base <= |codes| && base == 4 * groups * width == (4 * groups) * width && id == firstId + 4 * groups
      invariant Run(h.Items(), stats)
             == Consume(start, h.capacity, Stream(true, codes, width, firstId, table, centroids, 0, 4 * groups))
      invariant h.scores[h.len..] == old(h.scores[..])[h.len..] && h.ids[h.len..] == old(h.ids[..])[h.len..]
      decreases |codes| - base
    {
      stats := ScanGroup(codes, firstId, width, table, centroids, base, id, groups, start, stats, h);
      base := base + stride;
      id := id + 4;
      groups := groups + 1;
    }
    var tail := codes[base..];
    FoursAre(wide, codes, width, firstId, table, centroids, groups);
    ConsumeConcat(start, h.capacity, Stream(true, codes, width, firstId, table, centroids, 0, 4 * groups),
                  Whole(wide, tail, width, id, table, centroids));
    var rest := ScanB8(wide, tail, id, width, table, centroids, h);
    stats := AddStats(stats, rest);
  }

  /** What the loop leaves for the scalar scan is the tail of the four-wide stream. */
  lemma FoursAre(wide: bool, codes: Codes, width: nat, firstId: nat, table: seq<int>, centroids: nat, groups: nat)
    requires width > 0 && (4 * groups) * width <= |codes| < (4 * groups) * width + 4 * width
    ensures Fours(wide, codes, width, firstId, table, centroids)
         == Stream(true, codes, width, firstId, table, centroids, 0, 4 * groups)
            + Whole(wide, codes[(4 * groups) * width..], width, firstId + 4 * groups, table, centroids)
  {
    hide Score, Stream, Count;
    var at, n := 4 * groups, Count(codes, width);
    CountOfRest(codes, width, at);
    GroupsOf(codes, width, groups);
    StreamShift(wide, codes, width, firstId, table, centroids, at, n - at);
  }

  lemma GroupsOf(codes: Codes, width: nat, groups: nat)
    requires width > 0 && (4 * groups) * width <= |codes| < (4 * groups) * width + 4 * width
    ensures Grouped(Count(codes, width)) == 4 * groups
  {
    hide Count;
    var n := Count(codes, width);
    assert (4 * groups) * width + 4 * width == (4 * groups + 4) * width;
    ScaleMonotone(4 * groups + 4, n, width);
    ScaleMonotone(n + 1, 4 * groups, width);
  }

  lemma EmptyStream(wide: bool, codes: Codes, width: nat, firstId: nat, table: seq<int>, centroids: nat)
    ensures Stream(wide, codes, width, firstId, table, centroids, 0, 0) == []
    ensures width == 0 ==> Whole(wide, codes, width, firstId, table, centroids) == []
    ensures Stream(true, codes, width, firstId, table, centroids, 0, 0) == []
    ensures width == 0 ==> Fours(wide, codes, width, firstId, table, centroids) == []
  {}

  lemma EmptyResume(r: Run, capacity: nat)
    requires |r.items| <= capacity && capacity > 0
    ensures Resume(r, capacity, []) == r
  {}

  /** What the loop shape a target selects offers. */
  function Offered(wide: bool, codes: Codes, width: nat, firstId: nat, table: seq<int>, centroids: nat)
    : (s: seq<Candidate>)
    ensures |s| == Count(codes, width)
  {
    if wide then Whole(wide, codes, width, firstId, table, centroids)
    else Fours(wide, codes, width, firstId, table, centroids)
  }

  /** `scan_b8_auto`: the loop shape a target selects. */
  method ScanB8Auto(wide: bool, codes: Codes, firstId: nat, width: nat, table: seq<int>, centroids: nat, h: Heap)
    returns (stats: ScanStats)
    requires h.Valid()
    modifies h`len, h.scores, h.ids
    ensures h.Valid() && h.len >= old(h.len)
    ensures Run(h.Items(), stats)
         == Consume(old(h.Items()), h.capacity, Offered(wide, codes, width, firstId, table, centroids))
    ensures h.scores[h.len..] == old(h.scores[..])[h.len..] && h.ids[h.len..] == old(h.ids[..])[h.len..]
  {
    if wide {
      stats := ScanB8(wide, codes, firstId, width, table, centroids, h);
    } else {
      stats := ScanB8x4(wide, codes, firstId, width, table, centroids, h);
    }
  }

  // ---------------------------------------------------------------- the loops compared

  lemma {:induction false} StreamAt(wide: bool, codes: Codes, width: nat, firstId: nat, table: seq<int>, centroids: nat,
                                    from: nat, end: nat, i: nat)
    requires from <= i < end && end * width <= |codes|
    ensures (i + 1) * width <= |codes|
    ensures Stream(wide, codes, width, firstId, table, centroids, from, end)[i - from]
         == Candidate(Score(wide, Record(codes, width, i), table, centroids), firstId + i)
    decreases end
  {
    hide Score;
    FitsBelow(end - 1, end, width, |codes|);
    FitsBelow(i + 1, end, width, |codes|);
    if i < end - 1 {
      StreamAt(wide, codes, width, firstId, table, centroids, from, end - 1, i);
    }
  }

  /** Candidate `i` of the two loops on a narrow target. */
  lemma FoursAt(codes: Codes, width: nat, firstId: nat, table: seq<int>, centroids: nat, i: nat)
    requires i < Count(codes, width)
    ensures (i + 1) * width <= |codes|
    ensures var record := Record(codes, width, i);
            && Whole(false, codes, width, firstId, table, centroids)[i]
               == Candidate(Score(false, record, table, centroids), firstId + i)
            && Fours(false, codes, width, firstId, table, centroids)[i]
               == Candidate(Score(i < Grouped(Count(codes, width)), record, table, centroids), firstId + i)
  {
    hide Score, Stream, Count, Grouped, Record;
    var n := Count(codes, width);
    var g := Grouped(n);
    FitsBelow(g, n, width, |codes|);
    StreamAt(false, codes, width, firstId, table, centroids, 0, n, i);
    if i < g {
      StreamAt(true, codes, width, firstId, table, centroids, 0, g, i);
    } else {
      StreamAt(false, codes, width, firstId, table, centroids, g, n, i);
    }
  }

  /** Record `i` is in a whole group of four and holds a code that strays. */
  predicate GroupedStray(codes: Codes, width: nat, size: nat, centroids: nat, i: nat) {
    && i < Grouped(Count(codes, width))
    && (FitsBelow(i + 1, Count(codes, width), width, |codes|); !NoStrays(Record(codes, width, i), size, centroids))
  }

  /**
   On a narrow target the four-wide loop offers what the scalar one does, for every table of a
   size, exactly when no record in a whole group of four holds a code that strays.
   */
  lemma LoopsAgreeIff(codes: Codes, width: nat, firstId: nat, size: nat, centroids: nat)
    requires width < 0x8000_0000
    ensures (forall table: seq<int> | |table| == size ::
               Fours(false, codes, width, firstId, table, centroids) == Whole(false, codes, width, firstId, table, centroids))
        <==> forall i: nat :: !GroupedStray(codes, width, size, centroids, i)
  {
    hide Score, Fours, Whole, NoStrays, Grouped, Count, Record;
    if i: nat :| GroupedStray(codes, width, size, centroids, i) {
      FitsBelow(i + 1, Count(codes, width), width, |codes|);
      var record := Record(codes, width, i);
      ScorersAgreeIffNoStrays(record, size, centroids);
      var table: seq<int> :| |table| == size && Score(false, record, table, centroids) != Score(true, record, table, centroids);
      FoursAt(codes, width, firstId, table, centroids, i);
      assert Fours(false, codes, width, firstId, table, centroids) != Whole(false, codes, width, firstId, table, centroids);
    } else {
      forall table: seq<int> | |table| == size
        ensures Fours(false, codes, width, firstId, table, centroids) == Whole(false, codes, width, firstId, table, centroids)
      {
        NoGroupedStrays(codes, width, firstId, table, centroids);
      }
    }
  }

  lemma NoGroupedStrays(codes: Codes, width: nat, firstId: nat, table: seq<int>, centroids: nat)
    requires forall i: nat :: !GroupedStray(codes, width, |table|, centroids, i)
    ensures Fours(false, codes, width, firstId, table, centroids) == Whole(false, codes, width, firstId, table, centroids)
  {
    hide Score, Fours, Whole, NoStrays, Count, Record;
    var n := Count(codes, width);
    forall i | 0 <= i < n
      ensures Fours(false, codes, width, firstId, table, centroids)[i] == Whole(false, codes, width, firstId, table, centroids)[i]
    {
      FoursAt(codes, width, firstId, table, centroids, i);
      if i < Grouped(n) {
        assert !GroupedStray(codes, width, |table|, centroids, i);
        ScoresAgree(Record(codes, width, i), table, centroids);
      }
    }
  }
}
