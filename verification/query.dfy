/**
 The two-stage query from the scan phase on: scan every run into the bounded heap, drain
 it, verify and rescore the candidates, sort, and return the best `k`.

 The payload source is the sequence of runs it will serve, possibly ending in a failure.
 */
module Query {
  import opened Options
  import opened Ranking
  import opened BoundedHeap
  import opened Scan
  import opened Rerank

  /** Largest candidate depth the fixed buffers support. */
  const MAX_R: nat := 512

  type CodeRun = (Codes, nat)

  /** Runs served in order, then exhaustion or a failure. */
  datatype Payload = Payload(runs: seq<CodeRun>, failure: Option<nat>)

  datatype QueryStats = QueryStats(scan: ScanStats, rerank: RerankStats, returned: nat)

  datatype QueryError =
    | WorkspaceTooSmall
    | CandidateDepthTooLarge
    | PayloadFailed(payload: nat)
    | RerankFailed(rerank: nat)

  /** Everything the query reads besides the payload. */
  datatype Setup = Setup(wide: bool, width: nat, table: seq<int>, centroids: nat)

  /** What the target's loop offers of a run. */
  function RunStream(u: Setup, run: CodeRun): seq<Candidate> {
    Offered(u.wide, run.0, u.width, run.1, u.table, u.centroids)
  }

  /** All candidates of all runs, in serving order. */
  function AllCandidates(u: Setup, runs: seq<CodeRun>): seq<Candidate> {
    if runs == [] then [] else AllCandidates(u, runs[..|runs| - 1]) + RunStream(u, runs[|runs| - 1])
  }

  /** The scan phase: every run into one heap, counters summed. */
  method ScanPhase(u: Setup, payload: Payload, h: Heap) returns (r: Result<ScanStats, QueryError>)
    requires h.Valid() && h.Items() == []
    modifies h`len, h.scores, h.ids
    ensures h.Valid()
    ensures r.Ok? <==> payload.failure.None?
    ensures r.Err? ==> r.error == PayloadFailed(payload.failure.value)
    ensures r.Ok? ==>
      Run(h.Items(), r.value) == Consume([], h.capacity, AllCandidates(u, payload.runs))
  {
    hide Consume, IsHeap, Offered;
    var stats := ScanStats(0, 0, 0);
    EmptyConsume(h.capacity);
    var i := 0;
    while i < |payload.runs|
      invariant 0 <= i <= |payload.runs| && h.Valid()
      invariant Run(h.Items(), stats) == Consume([], h.capacity, AllCandidates(u, payload.runs[..i]))
    {
      var run := payload.runs[i];
      assert payload.runs[..i + 1][..i] == payload.runs[..i];
      ConsumeConcat([], h.capacity, AllCandidates(u, payload.runs[..i]), RunStream(u, run));
      var s := ScanB8Auto(u.wide, run.0, run.1, u.width, u.table, u.centroids, h);
      stats := AddStats(stats, s);
      i := i + 1;
    }
    assert payload.runs[..|payload.runs|] == payload.runs;
    match payload.failure
    case Some(e) => return Err(PayloadFailed(e));
    case None => return Ok(stats);
  }

  lemma EmptyConsume(capacity: nat)
    requires capacity > 0
    ensures Consume([], capacity, []) == Run([], ScanStats(0, 0, 0))
  {}

  /** What the heap lists after the scan phase: the first `capacity` of all candidates. */
  lemma HeapListsTop(h: Heap, s: seq<Candidate>, stats: ScanStats)
    requires h.Valid() && Run(h.Items(), stats) == Consume([], h.capacity, s)
    ensures h.Listing() == Top(h.capacity, s)
    ensures BestOf(h.Listing(), s)
    ensures stats.scanned == |s| && stats.offered - stats.evicted == |Top(h.capacity, s)|
  {
    hide BestOf;
    TopIsBest(h.capacity, s);
    ScanHoldsTop(h.capacity, s);
    SortedUnique(h.Listing(), Top(h.capacity, s));
    ConsumeCounts([], h.capacity, s);
  }

  /** Candidates stage one passes on, and survivors of stage two, as plain lists. */
  function StageOne(u: Setup, runs: seq<CodeRun>, depth: nat): seq<Candidate> {
    Top(depth, AllCandidates(u, runs))
  }

  /** The rerank and finalize phases on an already drained candidate list. */
  method Finish(cands: seq<Candidate>, src: Source, block: nat, query: seq<int>, k: nat,
                out: array<Candidate>, scan: ScanStats)
    returns (r: Result<QueryStats, QueryError>)
    requires |cands| <= MAX_R
    modifies out
    ensures r.Err? <==> FirstError(cands, src).Some?
    ensures r.Err? ==> r.error == RerankFailed(FirstError(cands, src).value)
    ensures r.Ok? ==>
      var survivors := Survivors(cands, src, block, query);
      var take := Min(Min(k, |survivors|), out.Length);
      && out[..take] == Top(take, survivors) && BestOf(out[..take], survivors)
      && out[take..] == old(out[take..])
      && r.value.scan == scan && r.value.returned == take
      && r.value.rerank.candidates == |cands|
      && r.value.rerank.dropped == Losses(cands, src, block) && r.value.rerank.dropped + |survivors| == |cands|
  {
    hide Survivors, FirstError, Ranked, BestOf, Losses;
    var buffer := new Candidate[MAX_R](_ => Candidate(0, 0));
    var n, stats := RerankAll(cands, src, block, query, buffer, RerankStats(0, 0, 0));
    if n.Err? {
      return Err(RerankFailed(n.error));
    }
    SortDesc(buffer, n.value);
    var take := Min(Min(k, n.value), out.Length);
    var i := 0;
    while i < take
      invariant 0 <= i <= take
      invariant forall j :: 0 <= j < i ==> out[j] == buffer[j]
      invariant forall j :: i <= j < out.Length ==> out[j] == old(out[j])
      invariant buffer[..n.value] == Ranked(Survivors(cands, src, block, query))
    {
      out[i] := buffer[i];
      i := i + 1;
    }
    assert out[..take] == buffer[..n.value][..take];
    TopIsBest(take, Survivors(cands, src, block, query));
    return Ok(QueryStats(scan, stats, take));
  }

  /** Which refusal a failed query reports: the first check, in phase order, that fails. */
  function Refusal(depth: nat, payload: Payload, candidates: nat, read: Option<nat>): QueryError {
    if depth == 0 then WorkspaceTooSmall
    else if payload.failure.Some? then PayloadFailed(payload.failure.value)
    else if candidates > MAX_R then CandidateDepthTooLarge
    else RerankFailed(if read.Some? then read.value else 0)
  }

  /** At eight bits a code, with a table of whole rows, every target offers the same candidates. */
  lemma {:induction false} TargetsAgree(u: Setup, v: Setup, runs: seq<CodeRun>, rows: nat)
    requires u.centroids >= 256 && |u.table| == rows * u.centroids && v == u.(wide := !u.wide)
    ensures AllCandidates(u, runs) == AllCandidates(v, runs)
    decreases |runs|
  {
    hide Offered;
    if runs != [] {
      var last := runs[|runs| - 1];
      TargetsAgree(u, v, runs[..|runs| - 1], rows);
      OffersAgree(last.0, u.width, last.1, u.table, u.centroids, rows);
    }
  }

  lemma OffersAgree(codes: Codes, width: nat, firstId: nat, table: seq<int>, centroids: nat, rows: nat)
    requires centroids >= 256 && |table| == rows * centroids
    ensures Offered(true, codes, width, firstId, table, centroids) == Offered(false, codes, width, firstId, table, centroids)
  {
    hide Score, Fours, Whole, NoStrays, Count, Record;
    forall i: nat
      ensures !GroupedStray(codes, width, |table|, centroids, i)
    {
      if i < Grouped(Count(codes, width)) {
        FitsBelow(i + 1, Count(codes, width), width, |codes|);
        ByteCodesNeverStray(Record(codes, width, i), rows, centroids);
      }
    }
    NoGroupedStrays(codes, width, firstId, table, centroids);
    WholeAgrees(codes, width, firstId, table, centroids, rows);
  }

  lemma WholeAgrees(codes: Codes, width: nat, firstId: nat, table: seq<int>, centroids: nat, rows: nat)
    requires centroids >= 256 && |table| == rows * centroids
    ensures Whole(true, codes, width, firstId, table, centroids) == Whole(false, codes, width, firstId, table, centroids)
  {
    hide Score, Stream, NoStrays, Count, Record;
    var n := Count(codes, width);
    forall i | 0 <= i < n
      ensures Whole(true, codes, width, firstId, table, centroids)[i] == Whole(false, codes, width, firstId, table, centroids)[i]
    {
      StreamAt(true, codes, width, firstId, table, centroids, 0, n, i);
      StreamAt(false, codes, width, firstId, table, centroids, 0, n, i);
      ByteCodesNeverStray(Record(codes, width, i), rows, centroids);
      ScoresAgree(Record(codes, width, i), table, centroids);
    }
  }

  /**
   One query. On success the output is the best `k` by exact score then id among those of
   the top `depth` stage-one candidates whose records are present and verify; every
   candidate is either dropped or rescored, and nothing takes a dropped one's place.
   */
  method RunQuery(u: Setup, payload: Payload, src: Source, block: nat, query: seq<int>, k: nat,
              scores: array<int>, ids: array<nat>, out: array<Candidate>)
    returns (r: Result<QueryStats, QueryError>)
    requires scores as object != ids as object && out as object != scores as object && out as object != ids as object
    modifies scores, ids, out
    ensures var depth := Min(scores.Length, ids.Length);
            var cands := StageOne(u, payload.runs, depth);
            var survivors := Survivors(cands, src, block, query);
            var take := Min(Min(k, |survivors|), out.Length);
            && (r.Ok? <==> depth > 0 && payload.failure.None? && |cands| <= 512 && FirstError(cands, src).None?)
            && (r.Ok? ==>
                  && BestOf(cands, AllCandidates(u, payload.runs))
                  && out[..take] == Top(take, survivors) && BestOf(out[..take], survivors)
                  && out[take..] == old(out[take..])
                  && r.value.returned == take
                  && r.value.scan.scanned == |AllCandidates(u, payload.runs)|
                  && r.value.scan.offered - r.value.scan.evicted == |cands|
                  && r.value.rerank.candidates == |cands|
                  && r.value.rerank.dropped == Losses(cands, src, block)
                  && r.value.rerank.dropped + |survivors| == |cands|)
            && (r.Err? ==> r.error == Refusal(depth, payload, |cands|, FirstError(cands, src)))
  {
    hide Survivors, FirstError, AllCandidates, Consume, Ranked, IsHeap, BestOf, Losses;
    var depth := Min(scores.Length, ids.Length);
    var heap := NewHeap(scores, ids, depth);
    if heap.None? {
      return Err(WorkspaceTooSmall);
    }
    var h := heap.value;
    var scan := ScanPhase(u, payload, h);
    if scan.Err? {
      return Err(scan.error);
    }
    HeapListsTop(h, AllCandidates(u, payload.runs), scan.value);
    ghost var cands := StageOne(u, payload.runs, depth);
    var held := h.len;
    if held > MAX_R {
      return Err(CandidateDepthTooLarge);
    }
    var slots := new Candidate[held](_ => Candidate(0, 0));
    var drained := h.DrainSorted(slots);
    assert slots[..drained] == cands;
    r := Finish(slots[..drained], src, block, query, k, out, scan.value);
  }
}
