/**
 Stage two: verify the blocks guarding each candidate's record, drop on mismatch, rescore
 the survivors, and sort them in place.
 */
module Rerank {
  import opened Options
  import opened Arith
  import opened Ranking
  import Crc
  import Scan

  type Bytes = seq<bv8>

  /** A candidate's record inside the whole blocks that hold it, and their CRCs. */
  datatype Guarded = Guarded(blocks: Bytes, offset: nat, len: nat, crcs: seq<bv32>) {
    function Record(): Option<Bytes> {
      if offset + len <= |blocks| then Some(blocks[offset..offset + len]) else None
    }
  }

  /** What reading a candidate's record yields: an error, nothing, or guarded bytes. */
  type Source = nat -> Result<Option<Guarded>, nat>

  datatype RerankStats = RerankStats(candidates: nat, dropped: nat, blocksVerified: nat)

  // ---------------------------------------------------------------- scores

  function Signed(b: bv8): int {
    var v := b as int;
    if v < 128 then v else v - 256
  }

  /** Wrapping inner product over the shorter of the two. */
  function ExactSum(query: seq<int>, record: Bytes, n: nat): int
    requires n <= |query| && n <= |record|
  {
    if n == 0 then 0
    else Scan.Wrap(ExactSum(query, record, n - 1) + query[n - 1] * Signed(record[n - 1]))
  }

  function ExactScore(query: seq<int>, record: Bytes): int {
    ExactSum(query, record, Min(|query|, |record|))
  }

  /** Sum of the first `n` products, each byte read as a signed one. */
  function InnerProduct(query: seq<int>, record: Bytes, n: nat): int
    requires n <= |query| && n <= |record|
  {
    if n == 0 then 0
    else InnerProduct(query, record, n - 1)
         + query[n - 1] * (record[n - 1] as int - if record[n - 1] & 0x80 != 0 then 256 else 0)
  }

  lemma TopBit(b: bv8)
    ensures b & 0x80 != 0 <==> b >= 128
  {}

  lemma SignedIs(b: bv8)
    ensures Signed(b) == b as int - if b & 0x80 != 0 then 256 else 0
  {
    TopBit(b);
  }

  /** Equal but for a multiple of 2^32. */
  predicate Congruent(x: int, y: int) {
    (x - y) % 0x1_0000_0000 == 0
  }

  lemma WrapIsCongruent(x: int, y: int, z: int)
    requires Congruent(x, y)
    ensures Congruent(Scan.Wrap(x + z), y + z) && -0x8000_0000 <= Scan.Wrap(x + z) < 0x8000_0000
  {}

  lemma {:induction false} ExactSumIs(query: seq<int>, record: Bytes, n: nat)
    requires n <= |query| && n <= |record|
    ensures Congruent(ExactSum(query, record, n), InnerProduct(query, record, n))
    ensures -0x8000_0000 <= ExactSum(query, record, n) < 0x8000_0000
  {
    hide Congruent, Scan.Wrap, Signed;
    if n == 0 {
      SameIsCongruent(0);
    } else {
      ExactSumIs(query, record, n - 1);
      SignedIs(record[n - 1]);
      WrapIsCongruent(ExactSum(query, record, n - 1), InnerProduct(query, record, n - 1), query[n - 1] * Signed(record[n - 1]));
    }
  }

  lemma SameIsCongruent(x: int)
    ensures Congruent(x, x)
  {}

  /** The exact score is the 32-bit signed word congruent to the inner product over the shorter of the two. */
  lemma ExactScoreIsInnerProduct(query: seq<int>, record: Bytes)
    ensures var n := if |query| <= |record| then |query| else |record|;
            (ExactScore(query, record) - InnerProduct(query, record, n)) % 0x1_0000_0000 == 0
    ensures -0x8000_0000 <= ExactScore(query, record) < 0x8000_0000
  {
    hide ExactSum, InnerProduct;
    ExactSumIs(query, record, Min(|query|, |record|));
  }

  method ComputeExactScore(query: seq<int>, record: Bytes) returns (acc: int)
    ensures acc == ExactScore(query, record)
  {
    acc := 0;
    var n := Min(|query|, |record|);
    var i := 0;
    while i < n
      invariant 0 <= i <= n && acc == ExactSum(query, record, i)
    {
      acc := Scan.Wrap(acc + query[i] * Signed(record[i]));
      i := i + 1;
    }
  }

  // ---------------------------------------------------------------- verification

  /** Block `i` is there whole and matches its CRC. */
  predicate BlockGood(g: Guarded, block: nat, i: nat)
    requires i < |g.crcs|
  {
    (i + 1) * block <= |g.blocks| && i * block <= (i + 1) * block
    && Crc.Crc32(g.blocks[i * block..(i + 1) * block]) == g.crcs[i]
  }

  /** Every containing block verifies and the record lies inside them. */
  predicate Trusted(g: Guarded, block: nat) {
    g.Record().Some? && forall i :: 0 <= i < |g.crcs| ==> BlockGood(g, block, i)
  }

  /** Blocks checked from `i` on: up to and including the first mismatch, none past a short buffer. */
  function Checked(g: Guarded, block: nat, i: nat): nat
    requires i <= |g.crcs|
    decreases |g.crcs| - i
  {
    if i == |g.crcs| || (i + 1) * block > |g.blocks| then 0
    else 1 + if BlockGood(g, block, i) then Checked(g, block, i + 1) else 0
  }

  /** The blocks checked: those that match, then one that does not or is not there whole. */
  lemma {:induction false} CheckedIs(g: Guarded, block: nat, i: nat)
    requires i <= |g.crcs|
    ensures var end := i + Checked(g, block, i);
            && end <= |g.crcs|
            && (forall j :: i <= j < end - 1 ==> BlockGood(g, block, j))
            && (end > i ==> end * block <= |g.blocks|)
            && (end == |g.crcs| || (end + 1) * block > |g.blocks| || (end > i && !BlockGood(g, block, end - 1)))
    decreases |g.crcs| - i
  {
    hide BlockGood;
    if i < |g.crcs| && (i + 1) * block <= |g.blocks| && BlockGood(g, block, i) {
      CheckedIs(g, block, i + 1);
    }
  }

  method VerifyBlocks(g: Guarded, block: nat, before: nat) returns (ok: bool, verified: nat)
    ensures ok <==> forall i :: 0 <= i < |g.crcs| ==> BlockGood(g, block, i)
    ensures verified == before + Checked(g, block, 0)
  {
    hide Crc.Crc32;
    verified := before;
    var i := 0;
    while i < |g.crcs|
      invariant 0 <= i <= |g.crcs|
      invariant forall j :: 0 <= j < i ==> BlockGood(g, block, j)
      invariant verified + Checked(g, block, i) == before + Checked(g, block, 0)
    {
      assert (i + 1) * block == i * block + block;
      if (i + 1) * block > |g.blocks| {
        assert !BlockGood(g, block, i);
        return false, verified;
      }
      verified := verified + 1;
      if !Crc.Verify(g.blocks[i * block..(i + 1) * block], g.crcs[i]) {
        assert !BlockGood(g, block, i);
        return false, verified;
      }
      i := i + 1;
    }
    ok := true;
  }

  // ---------------------------------------------------------------- the pass over candidates

  /** What becomes of one candidate: its exact score, or a drop. */
  function Rescore(src: Source, block: nat, query: seq<int>, id: nat): Option<Candidate> {
    match src(id)
    case Ok(Some(g)) =>
      if Trusted(g, block) then Some(Candidate(ExactScore(query, g.Record().value), id)) else None
    case _ => None
  }

  /** Cut into blocks, the bytes have the CRCs given, one after the other. */
  predicate Certified(blocks: Bytes, block: nat, crcs: seq<bv32>) {
    || crcs == []
    || (|blocks| >= block && Crc.Crc32(blocks[..block]) == crcs[0] && Certified(blocks[block..], block, crcs[1..]))
  }

  lemma CutOne(g: Guarded, block: nat, from: nat)
    requires from < |g.crcs| && 0 <= from * block <= |g.blocks|
    ensures BlockGood(g, block, from) <==>
            |g.blocks[from * block..]| >= block && Crc.Crc32(g.blocks[from * block..][..block]) == g.crcs[from]
    ensures (from + 1) * block == from * block + block
    ensures |g.blocks[from * block..]| >= block ==> g.blocks[from * block..][block..] == g.blocks[(from + 1) * block..]
    ensures g.crcs[from..][0] == g.crcs[from] && g.crcs[from..][1..] == g.crcs[from + 1..]
  {
    hide Crc.Crc32;
    Distribute(from, 1, block);
    if |g.blocks[from * block..]| >= block {
      assert g.blocks[from * block..][..block] == g.blocks[from * block..(from + 1) * block];
    }
  }

  lemma {:induction false} CertifiedIffGood(g: Guarded, block: nat, from: nat)
    requires from <= |g.crcs| && 0 <= from * block <= |g.blocks|
    ensures Certified(g.blocks[from * block..], block, g.crcs[from..])
       <==> forall i :: from <= i < |g.crcs| ==> BlockGood(g, block, i)
    decreases |g.crcs| - from
  {
    hide BlockGood, Crc.Crc32;
    if from < |g.crcs| {
      CutOne(g, block, from);
      if BlockGood(g, block, from) {
        CertifiedIffGood(g, block, from + 1);
      }
    }
  }

  /** The record of `id` is there, and every block guarding it has the CRC stored for it. */
  predicate Intact(src: Source, block: nat, id: nat) {
    && src(id).Ok? && src(id).value.Some?
    && var g := src(id).value.value;
       g.offset + g.len <= |g.blocks| && Certified(g.blocks, block, g.crcs)
  }

  /** Exactly those are rescored, and by the bytes the source hands over. */
  lemma RescoredIffIntact(src: Source, block: nat, query: seq<int>, id: nat)
    ensures Rescore(src, block, query, id).Some? <==> Intact(src, block, id)
    ensures Intact(src, block, id) ==>
              var g := src(id).value.value;
              Rescore(src, block, query, id).value == Candidate(ExactScore(query, g.blocks[g.offset..g.offset + g.len]), id)
  {
    hide Crc.Crc32, ExactScore, BlockGood, Certified;
    if src(id).Ok? && src(id).value.Some? {
      var g := src(id).value.value;
      CertifiedIffGood(g, block, 0);
      assert g.blocks[0 * block..] == g.blocks && g.crcs[0..] == g.crcs;
    }
  }

  lemma RescoreKeepsId(src: Source, block: nat, query: seq<int>)
    ensures forall id: nat :: Rescore(src, block, query, id).Some? ==> Rescore(src, block, query, id).value.id == id
  {
    hide Trusted, ExactScore;
  }

  /** One guarding block whose CRC is not the stored word is enough to drop every candidate of the id. */
  lemma MismatchDrops(cands: seq<Candidate>, src: Source, block: nat, query: seq<int>, id: nat, g: Guarded, i: nat)
    requires src(id) == Ok(Some(g)) && i < |g.crcs| && 0 <= i * block <= (i + 1) * block <= |g.blocks|
    requires Crc.Crc32(g.blocks[i * block..(i + 1) * block]) != g.crcs[i]
    ensures Rescore(src, block, query, id) == None
    ensures forall c :: c in Survivors(cands, src, block, query) ==> c.id != id
  {
    hide Crc.Crc32, ExactScore, Survivors;
    assert !BlockGood(g, block, i);
    forall c | c in Survivors(cands, src, block, query)
      ensures c.id != id
    {
      SurvivorsExactly(cands, src, block, query, c);
    }
  }

  /** How many of the candidates are not intact. */
  function Losses(cands: seq<Candidate>, src: Source, block: nat): (n: nat)
    ensures n <= |cands|
  {
    if cands == [] then 0
    else Losses(cands[..|cands| - 1], src, block) + if Intact(src, block, cands[|cands| - 1].id) then 0 else 1
  }

  /** What does not survive is exactly what is not intact. */
  lemma {:induction false} SurvivorsAndLosses(cands: seq<Candidate>, src: Source, block: nat, query: seq<int>)
    ensures |Survivors(cands, src, block, query)| + Losses(cands, src, block) == |cands|
    decreases |cands|
  {
    hide Rescore, Intact;
    if cands != [] {
      SurvivorsAndLosses(cands[..|cands| - 1], src, block, query);
      RescoredIffIntact(src, block, query, cands[|cands| - 1].id);
    }
  }

  /** Survivors in input order: nothing is backfilled. */
  function Survivors(cands: seq<Candidate>, src: Source, block: nat, query: seq<int>): (s: seq<Candidate>)
    ensures |s| <= |cands|
  {
    if cands == [] then []
    else
      var n := |cands| - 1;
      Survivors(cands[..n], src, block, query)
      + match Rescore(src, block, query, cands[n].id) case Some(c) => [c] case None => []
  }

  /** The first read error the pass meets. */
  function FirstError(cands: seq<Candidate>, src: Source): Option<nat> {
    if cands == [] then None
    else
      var n := |cands| - 1;
      match FirstError(cands[..n], src)
      case Some(e) => Some(e)
      case None => (match src(cands[n].id) case Err(e) => Some(e) case Ok(_) => None)
  }

  function BlocksOf(src: Source, block: nat, id: nat): nat {
    match src(id) case Ok(Some(g)) => Checked(g, block, 0) case _ => 0
  }

  function BlocksVerified(cands: seq<Candidate>, src: Source, block: nat): nat {
    if cands == [] then 0
    else BlocksVerified(cands[..|cands| - 1], src, block) + BlocksOf(src, block, cands[|cands| - 1].id)
  }

  /** Each survivor is the rescoring of a candidate whose record is present and guarded by matching CRCs, and conversely. */
  lemma {:induction false} SurvivorsExactly(cands: seq<Candidate>, src: Source, block: nat, query: seq<int>,
                                            c: Candidate)
    ensures c in Survivors(cands, src, block, query)
      <==> exists i :: 0 <= i < |cands| && Rescore(src, block, query, cands[i].id) == Some(c)
    ensures c in Survivors(cands, src, block, query) ==> Intact(src, block, c.id)
  {
    hide Rescore, Intact;
    RescoredIffIntact(src, block, query, c.id);
    RescoreKeepsId(src, block, query);
    if cands != [] {
      var n := |cands| - 1;
      SurvivorsExactly(cands[..n], src, block, query, c);
      if c in Survivors(cands[..n], src, block, query) {
        var i :| 0 <= i < n && Rescore(src, block, query, cands[..n][i].id) == Some(c);
        assert cands[i] == cands[..n][i];
      }
      if i :| 0 <= i < |cands| && Rescore(src, block, query, cands[i].id) == Some(c) {
        if i < n {
          assert cands[..n][i] == cands[i];
        }
      }
    }
  }

  /** Verify, drop or rescore every candidate in order. */
  method RerankAll(cands: seq<Candidate>, src: Source, block: nat, query: seq<int>, out: array<Candidate>,
                   before: RerankStats) returns (r: Result<nat, nat>, stats: RerankStats)
    requires |cands| <= out.Length
    modifies out
    ensures r.Err? <==> FirstError(cands, src).Some?
    ensures r.Err? ==> r.error == FirstError(cands, src).value
    ensures r.Ok? ==> r.value == |Survivors(cands, src, block, query)| <= out.Length
    ensures r.Ok? ==> out[..r.value] == Survivors(cands, src, block, query)
    ensures r.Ok? ==> r.value + Losses(cands, src, block) == |cands|
    ensures r.Ok? ==> stats == RerankStats(before.candidates + |cands|,
                                           before.dropped + Losses(cands, src, block),
                                           before.blocksVerified + BlocksVerified(cands, src, block))
  {
    hide ExactScore, BlockGood, Checked, Losses;
    stats := before;
    var written := 0;
    var i := 0;
    while i < |cands|
      invariant 0 <= i <= |cands| && written <= i
      invariant FirstError(cands[..i], src).None?
      invariant written == |Survivors(cands[..i], src, block, query)|
      invariant out[..written] == Survivors(cands[..i], src, block, query)
      invariant stats == RerankStats(before.candidates + i, before.dropped + i - written,
                                     before.blocksVerified + BlocksVerified(cands[..i], src, block))
    {
      var cand := cands[i];
      assert cands[..i + 1][..i] == cands[..i];
      stats := stats.(candidates := stats.candidates + 1);
      var fetched := src(cand.id);
      if fetched.Err? {
        ErrorSticks(cands, src, i);
        return Err(fetched.error), stats;
      }
      if fetched.value.None? {
        stats := stats.(dropped := stats.dropped + 1);
        i := i + 1;
        continue;
      }
      var g := fetched.value.value;
      var ok, verified := VerifyBlocks(g, block, stats.blocksVerified);
      stats := stats.(blocksVerified := verified);
      var record := g.Record();
      if !ok || record.None? {
        stats := stats.(dropped := stats.dropped + 1);
        i := i + 1;
        continue;
      }
      var score := ComputeExactScore(query, record.value);
      out[written] := Candidate(score, cand.id);
      written := written + 1;
      i := i + 1;
    }
    assert cands[..|cands|] == cands;
    SurvivorsAndLosses(cands, src, block, query);
    r := Ok(written);
  }

  lemma {:induction false} ErrorSticks(cands: seq<Candidate>, src: Source, i: nat)
    requires i < |cands| && FirstError(cands[..i], src).None? && src(cands[i].id).Err?
    ensures FirstError(cands, src) == Some(src(cands[i].id).error)
    decreases |cands|
  {
    var n := |cands| - 1;
    if i < n {
      assert cands[..n][..i] == cands[..i];
      ErrorSticks(cands[..n], src, i);
    }
  }

  // ---------------------------------------------------------------- the final sort

  /** Move entry `j` up past everything worse. */
  function Bubble(s: seq<Candidate>, j: nat): (t: seq<Candidate>)
    requires j < |s|
    ensures |t| == |s|
    decreases j
  {
    if j > 0 && Worse(s[j - 1], s[j]) then Bubble(s[j - 1 := s[j]][j := s[j - 1]], j - 1) else s
  }

  /** Sorted once entry `j` is set aside; and it is better than all after it. */
  ghost predicate SortedBut(s: seq<Candidate>, j: nat) {
    && j < |s|
    && (forall a, b :: 0 <= a < b < |s| && a != j && b != j ==> !Worse(s[a], s[b]))
    && (forall b :: j < b < |s| ==> !Worse(s[j], s[b]))
  }

  lemma {:induction false} BubbleSorts(s: seq<Candidate>, j: nat)
    requires SortedBut(s, j)
    ensures Sorted(Bubble(s, j)) && multiset(Bubble(s, j)) == multiset(s)
    decreases j
  {
    if j > 0 && Worse(s[j - 1], s[j]) {
      BubbleStep(s, j);
      BubbleSorts(s[j - 1 := s[j]][j := s[j - 1]], j - 1);
    } else {
      BubbleStops(s, j);
    }
  }

  lemma BubbleStep(s: seq<Candidate>, j: nat)
    requires SortedBut(s, j) && j > 0 && Worse(s[j - 1], s[j])
    ensures SortedBut(s[j - 1 := s[j]][j := s[j - 1]], j - 1)
  {
    var t := s[j - 1 := s[j]][j := s[j - 1]];
    forall a, b | 0 <= a < b < |t| && a != j - 1 && b != j - 1
      ensures !Worse(t[a], t[b])
    {
      assert t[a] == s[if a == j then j - 1 else a] && t[b] == s[if b == j then j - 1 else b];
    }
  }

  lemma BubbleStops(s: seq<Candidate>, j: nat)
    requires SortedBut(s, j) && (j > 0 ==> !Worse(s[j - 1], s[j]))
    ensures Sorted(s)
  {
    forall a | 0 <= a < j
      ensures !Worse(s[a], s[j])
    {
      assert a < j - 1 ==> !Worse(s[a], s[j - 1]);
    }
  }

  /** In-place insertion sort of the first `n` entries. */
  method SortDesc(a: array<Candidate>, n: nat)
    requires n <= a.Length
    modifies a
    ensures a[..n] == Ranked(old(a[..n]))
    ensures multiset(a[..n]) == multiset(old(a[..n]))
    ensures BestOf(a[..n], old(a[..n]))
    ensures a[n..] == old(a[n..])
  {
    hide Sorted, Bubble, BestOf;
    ghost var was := a[..n];
    OneIsSorted(was);
    var i := 1;
    while i < n
      invariant 1 <= i && (i <= n || n == 0)
      invariant n > 0 ==> Sorted(a[..n][..i])
      invariant multiset(a[..n]) == multiset(was)
      invariant a[n..] == old(a[n..])
    {
      ghost var before := a[..n];
      BubblePass(a, i, n);
      PassSorts(before, a[..n], i);
      i := i + 1;
    }
    assert n > 0 ==> a[..n][..n] == a[..n];
    RankedSpec(was);
    SortedUnique(a[..n], Ranked(was));
    TopIsBest(n, was);
    assert Top(n, was) == Ranked(was);
  }

  lemma OneIsSorted(s: seq<Candidate>)
    ensures Sorted([]) && (|s| > 0 ==> Sorted(s[..1]))
  {}

  /** One outer pass: the sorted prefix grows by one. */
  lemma PassSorts(before: seq<Candidate>, after: seq<Candidate>, i: nat)
    requires i < |before| && Sorted(before[..i])
    requires after == Bubble(before[..i + 1], i) + before[i + 1..]
    ensures Sorted(after[..i + 1]) && multiset(after) == multiset(before)
  {
    hide Sorted, Bubble, SortedBut;
    var head := before[..i + 1];
    PrefixSorted(before, i);
    BubbleSorts(head, i);
    assert before == head + before[i + 1..];
    assert after[..i + 1] == Bubble(head, i);
  }

  lemma PrefixSorted(s: seq<Candidate>, i: nat)
    requires i < |s| && Sorted(s[..i])
    ensures SortedBut(s[..i + 1], i)
  {
    var t := s[..i + 1];
    forall a, b | 0 <= a < b < i
      ensures !Worse(t[a], t[b])
    {
      assert t[a] == s[..i][a] && t[b] == s[..i][b];
    }
  }

  /** A prefix and what follows it, cut at `m`. */
  lemma CutAt(s: seq<Candidate>, m: nat, n: nat)
    requires m <= n <= |s|
    ensures s[..n] == s[..m] + s[m..][..n - m] && s[n..] == s[m..][n - m..]
    ensures s[..n][..m] == s[..m] && s[..n][m..] == s[m..][..n - m]
  {}

  /** The inner loop, seen from the whole range being sorted. */
  method BubblePass(a: array<Candidate>, i: nat, n: nat)
    requires i < n <= a.Length
    modifies a
    ensures a[..n] == Bubble(old(a[..n])[..i + 1], i) + old(a[..n])[i + 1..]
    ensures a[n..] == old(a[n..])
  {
    hide Bubble;
    ghost var before := a[..];
    CutAt(before, i + 1, n);
    assert a[..n] == before[..n] && a[..i + 1] == before[..i + 1] && a[i + 1..] == before[i + 1..] && a[n..] == before[n..];
    BubbleLoop(a, i);
    ghost var after := a[..];
    CutAt(after, i + 1, n);
    assert a[..n] == after[..n] && a[..i + 1] == after[..i + 1] && a[i + 1..] == after[i + 1..] && a[n..] == after[n..];
  }

  method BubbleLoop(a: array<Candidate>, i: nat)
    requires i < a.Length
    modifies a
    ensures a[..i + 1] == Bubble(old(a[..i + 1]), i)
    ensures a[i + 1..] == old(a[i + 1..])
  {
    var j := i;
    while j > 0
      invariant 0 <= j <= i
      invariant Bubble(a[..i + 1], j) == Bubble(old(a[..i + 1]), i)
      invariant a[i + 1..] == old(a[i + 1..])
    {
      if !Worse(a[j - 1], a[j]) {
        break;
      }
      ghost var s := a[..i + 1];
      a[j - 1], a[j] := a[j], a[j - 1];
      assert a[..i + 1] == s[j - 1 := s[j]][j := s[j - 1]];
      j := j - 1;
    }
  }
}
