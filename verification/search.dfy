/**
 A query over a volume: the payload reader feeding the scan, the rerank reader feeding stage
 two. On a sound volume the answer is the best k by exact score of the best `depth` held ids,
 and nothing is dropped.
 */
module Search {
  import opened Options
  import opened Flash
  import opened Codec
  import opened Manifests
  import opened Arith
  import opened Layouts
  import opened Volumes
  import opened Atomicity
  import opened Ranking
  import opened BoundedHeap
  import opened Scan
  import opened Query
  import opened Source
  import Rerank

  // ---------------------------------------------------------------- the runs of a walk

  /** The area has the bytes of `id`. */
  predicate InArea(img: Bytes, a: Area, id: nat) {
    a.per > 0 && a.per * a.width <= BLOCK_BYTES && Fits(a, Quotient(id, a.per), |img|)
  }

  /** Every block of the walk is in the area. */
  predicate Walkable(img: Bytes, s: Shape, a: Area) {
    && a.per == s.per && a.per > 0 && a.width > 0 && a.per * a.width <= BLOCK_BYTES
    && forall b: nat | b < s.blocks :: Fits(a, b, |img|)
  }

  function RunAt(img: Bytes, s: Shape, a: Area, b: nat): (r: CodeRun)
    requires Walkable(img, s, a) && b < s.blocks && s.FirstId(b) < s.n
  {
    TakeFits(s, b, a.width);
    RunInside(img, s, a, b);
    (Slice(img, BlockAddr(a, b), s.Take(b) * a.width), s.FirstId(b))
  }

  lemma RunInside(img: Bytes, s: Shape, a: Area, b: nat)
    requires Walkable(img, s, a) && b < s.blocks && s.FirstId(b) < s.n
    ensures BlockAddr(a, b) + s.Take(b) * a.width <= |img|
  {
    TakeFits(s, b, a.width);
    assert Fits(a, b, |img|);
  }

  /** The runs a walk from block `b` serves. */
  function ServedRuns(img: Bytes, s: Shape, a: Area, b: nat): seq<CodeRun>
    requires Walkable(img, s, a)
    decreases s.blocks - b
  {
    match s.Serve(b)
    case None => []
    case Some((c, _)) => [RunAt(img, s, a, c)] + ServedRuns(img, s, a, c + 1)
  }

  /** The first run served from block `b`, and the rest. */
  lemma ServedFirst(img: Bytes, s: Shape, a: Area, b: nat)
    requires Walkable(img, s, a)
    ensures s.Serve(b) == None ==> ServedRuns(img, s, a, b) == []
    ensures s.Serve(b).Some? ==>
      ServedRuns(img, s, a, b) == [RunAt(img, s, a, s.Serve(b).value.0)] + ServedRuns(img, s, a, s.Serve(b).value.0 + 1)
  {
    hide RunAt, Walkable, Shape.Serve;
  }

  /** What the query's scan loop takes from the reader. */
  method ServeAll(reader: PayloadReader, a: Area) returns (runs: seq<CodeRun>)
    requires reader.Valid() && Walkable(reader.flash.image, reader.shape, a)
    requires a.base == reader.base && a.width == reader.recordBytes
    modifies reader
    ensures reader.Valid() && runs == ServedRuns(reader.flash.image, reader.shape, a, 0)
  {
    hide PayloadReader.Valid, Slice, ServedRuns, Walkable, Shape.Serve, Shape.Take, Shape.FirstId;
    ghost var img, s := reader.flash.image, reader.shape;
    reader.Rewind();
    runs := [];
    assert [] + ServedRuns(img, s, a, 0) == ServedRuns(img, s, a, 0);
    while true
      invariant reader.Valid()
      invariant runs + ServedRuns(img, s, a, reader.nextBlock) == ServedRuns(img, s, a, 0)
      decreases s.blocks - reader.nextBlock
    {
      ghost var at := reader.nextBlock;
      ServedFirst(img, s, a, at);
      var run := reader.NextRun();
      if run.None? {
        assert runs + [] == runs;
        break;
      }
      ghost var rest := ServedRuns(img, s, a, reader.nextBlock);
      assert runs + ([run.value] + rest) == (runs + [run.value]) + rest;
      runs := runs + [run.value];
    }
  }

  // ---------------------------------------------------------------- its candidates

  /** Byte codes of the area's width, and a table of whole rows. */
  predicate Fitting(u: Setup, a: Area, rows: nat) {
    u.width == a.width && u.centroids >= 256 && |u.table| == rows * u.centroids
  }

  /** `id` with the stage-one score of the code flash holds for it. */
  function Hit(img: Bytes, a: Area, u: Setup, id: nat): Candidate
    requires InArea(img, a, id)
  {
    Candidate(Score(true, RecordAt(img, a, id), u.table, u.centroids), id)
  }

  function Hits(img: Bytes, a: Area, u: Setup, ids: seq<nat>): (s: seq<Candidate>)
    requires forall i :: 0 <= i < |ids| ==> InArea(img, a, ids[i])
    ensures |s| == |ids|
  {
    seq(|ids|, i requires 0 <= i < |ids| => Hit(img, a, u, ids[i]))
  }

  /** Candidate `i` of a run is its `i`th id, scored by its own code. */
  lemma RunHit(img: Bytes, a: Area, u: Setup, b: nat, take: nat, run: Bytes, i: nat)
    requires a.per > 0 && a.width > 0 && a.per * a.width <= BLOCK_BYTES && Fits(a, b, |img|) && u.width == a.width
    requires i < take <= a.per && take * a.width <= BLOCK_BYTES && run == Slice(img, BlockAddr(a, b), take * a.width)
    ensures 0 <= b * a.per && InArea(img, a, b * a.per + i) && Count(run, u.width) == take
    ensures Whole(true, run, u.width, b * a.per, u.table, u.centroids)[i] == Hit(img, a, u, b * a.per + i)
  {
    hide Slice, Score, RecordAt, Whole, Record, RunRecord, Count;
    RunRecordIs(img, a, b, take, i);
    WholeCount(run, a.width, take);
    RecordOfRun(run, a.width, take, i);
    WholeAt(run, u.width, b * a.per, u.table, u.centroids, i);
  }

  /** The candidates of one run are its ids, each scored by its own code, on every target. */
  lemma RunHits(img: Bytes, s: Shape, a: Area, u: Setup, rows: nat, b: nat)
    requires Walkable(img, s, a) && b < s.blocks && s.FirstId(b) < s.n && Fitting(u, a, rows)
    ensures forall id :: id in Range(s.FirstId(b), s.Take(b)) ==> InArea(img, a, id)
    ensures RunStream(u, RunAt(img, s, a, b)) == Hits(img, a, u, Range(s.FirstId(b), s.Take(b)))
  {
    hide Slice, Hit, InArea, Whole, Fours, Shape.Take, Shape.FirstId, Count;
    var take, first := s.Take(b), s.FirstId(b);
    TakeFits(s, b, a.width);
    RunInside(img, s, a, b);
    FirstIdIs(s, b);
    assert Fits(a, b, |img|);
    var run := Slice(img, BlockAddr(a, b), take * a.width);
    OffersAgree(run, u.width, first, u.table, u.centroids, rows);
    WholeCount(run, a.width, take);
    forall i | 0 <= i < take
      ensures InArea(img, a, Range(first, take)[i])
      ensures Whole(true, run, u.width, first, u.table, u.centroids)[i] == Hit(img, a, u, Range(first, take)[i])
    {
      assert Range(first, take)[i] == first + i;
      RunHit(img, a, u, b, take, run, i);
    }
    SameHits(img, a, u, Range(first, take), Whole(true, run, u.width, first, u.table, u.centroids));
  }

  lemma SameHits(img: Bytes, a: Area, u: Setup, ids: seq<nat>, s: seq<Candidate>)
    requires |s| == |ids| && forall i :: 0 <= i < |ids| ==> InArea(img, a, ids[i]) && s[i] == Hit(img, a, u, ids[i])
    ensures s == Hits(img, a, u, ids)
  {
    hide Hit, InArea;
  }

  lemma WholeCount(run: Bytes, width: nat, take: nat)
    requires width > 0 && |run| == take * width
    ensures Count(run, width) == take
  {
    QuotientIs(take * width, width, take);
  }

  lemma RecordOfRun(run: Bytes, width: nat, take: nat, i: nat)
    requires |run| == take * width && i < take
    ensures (i + 1) * width <= |run| && Record(run, width, i) == RunRecord(run, width, take, i)
  {
    FitsBelow(i + 1, take, width, |run|);
  }

  lemma WholeAt(run: Bytes, width: nat, first: nat, table: seq<int>, centroids: nat, i: nat)
    requires i < Count(run, width)
    ensures (i + 1) * width <= |run|
    ensures Whole(true, run, width, first, table, centroids)[i]
         == Candidate(Score(true, Record(run, width, i), table, centroids), first + i)
  {
    hide Score, Stream, Count, Record;
    StreamAt(true, run, width, first, table, centroids, 0, Count(run, width), i);
  }

  lemma {:induction false} CandidatesCons(u: Setup, run: CodeRun, rest: seq<CodeRun>)
    ensures AllCandidates(u, [run] + rest) == RunStream(u, run) + AllCandidates(u, rest)
    decreases |rest|
  {
    hide RunStream;
    if rest == [] {
      assert [run] + rest == [run];
      assert [run][..0] == [];
    } else {
      var n := |rest| - 1;
      assert ([run] + rest)[..n + 1] == [run] + rest[..n];
      CandidatesCons(u, run, rest[..n]);
    }
  }

  /** The candidates of a walk are the served ids, in order. */
  lemma {:induction false} WalkHits(img: Bytes, s: Shape, a: Area, u: Setup, rows: nat, b: nat)
    requires Walkable(img, s, a) && Fitting(u, a, rows)
    ensures forall i :: 0 <= i < |s.ServedIds(b)| ==> InArea(img, a, s.ServedIds(b)[i])
    ensures AllCandidates(u, ServedRuns(img, s, a, b)) == Hits(img, a, u, s.ServedIds(b))
    decreases s.blocks - b
  {
    hide RunStream, Range, Hit, InArea, Walkable, RunAt, Shape.Take, Shape.FirstId, Fitting;
    match s.Serve(b)
    case None =>
    case Some((c, take)) =>
      RunHits(img, s, a, u, rows, c);
      WalkHits(img, s, a, u, rows, c + 1);
      CandidatesCons(u, RunAt(img, s, a, c), ServedRuns(img, s, a, c + 1));
      HitsConcat(img, a, u, Range(s.FirstId(c), take), s.ServedIds(c + 1));
  }

  lemma HitsConcat(img: Bytes, a: Area, u: Setup, x: seq<nat>, y: seq<nat>)
    requires forall id :: id in x ==> InArea(img, a, id)
    requires forall i :: 0 <= i < |y| ==> InArea(img, a, y[i])
    ensures forall i :: 0 <= i < |x + y| ==> InArea(img, a, (x + y)[i])
    ensures Hits(img, a, u, x + y) == Hits(img, a, u, x) + Hits(img, a, u, y)
  {
    hide Hit, InArea;
  }

  // ---------------------------------------------------------------- a sound volume

  lemma HeldInArea(img: Bytes, s: Shape, a: Area, id: nat)
    requires s.Valid() && Walkable(img, s, a) && s.Held(id)
    ensures InArea(img, a, id)
  {
    hide CeilDiv;
    DivMod(id, s.per);
    BelowCeil(Quotient(id, s.per), s.n, s.per);
  }

  lemma SoundWalk(img: Bytes, m: Manifest, h: nat)
    requires Sound(img, m, h)
    ensures ShapeOf(m).Valid() && Walkable(img, ShapeOf(m), PayloadArea(m))
    ensures var ids := ShapeOf(m).HeldIds(0);
            forall i :: 0 <= i < |ids| ==> InArea(img, PayloadArea(m), ids[i]) && m.Holds(ids[i])
  {
    hide Sound, InArea, PayloadArea, Supported, Shape.Valid, Shape.Held, CeilDiv;
    SoundIsSupported(img, m, h);
    SoundShape(img, m, h);
    WholeRatio(m);
    WidthIs(m);
    var s, ids := ShapeOf(m), ShapeOf(m).HeldIds(0);
    HeldIdsAreHeld(s, 0);
    forall i | 0 <= i < |ids|
      ensures InArea(img, PayloadArea(m), ids[i]) && m.Holds(ids[i])
    {
      assert ids[i] in ids;
      HeldInArea(img, s, PayloadArea(m), ids[i]);
    }
  }

  lemma WidthIs(m: Manifest)
    requires Supported(m)
    ensures PayloadArea(m).width > 0
  {}

  /** The area has the bytes of every held id. */
  predicate WalksHeld(img: Bytes, m: Manifest) {
    Supported(m) && forall i :: 0 <= i < |ShapeOf(m).HeldIds(0)| ==> InArea(img, PayloadArea(m), ShapeOf(m).HeldIds(0)[i])
  }

  /** Every held id, in order, with its stage-one score. */
  function HeldHits(img: Bytes, m: Manifest, u: Setup): seq<Candidate>
    requires WalksHeld(img, m)
  {
    Hits(img, PayloadArea(m), u, ShapeOf(m).HeldIds(0))
  }

  /** Among the best of some hits, only their ids. */
  lemma TopIsHeld(img: Bytes, m: Manifest, a: Area, u: Setup, ids: seq<nat>, depth: nat)
    requires forall i :: 0 <= i < |ids| ==> InArea(img, a, ids[i]) && m.Holds(ids[i])
    ensures var cands := Top(depth, Hits(img, a, u, ids));
            forall i :: 0 <= i < |cands| ==> m.Holds(cands[i].id)
  {
    hide InArea, Manifest.Holds, Score, RecordAt;
    var s := Hits(img, a, u, ids);
    RankedSpec(s);
    forall i | 0 <= i < |Top(depth, s)|
      ensures m.Holds(Top(depth, s)[i].id)
    {
      assert Ranked(s)[i] in multiset(Ranked(s));
      assert Ranked(s)[i] in s;
    }
  }

  /**
   The answer on a sound volume: with a workspace of `depth` and no more than the fixed buffers
   take, the best `k` by exact score of the best `depth` held ids, each scored by the record
   flash holds for it; nothing is dropped.
   */
  ghost predicate SoundAnswer(img: Bytes, m: Manifest, held: seq<Candidate>, query: seq<int>, k: nat, depth: nat,
                              was: seq<Candidate>, now: seq<Candidate>, r: Result<QueryStats, QueryError>)
    requires Supported(m) && |was| == |now|
  {
    var cands := Top(depth, held);
    && (r.Err? <==> depth == 0 || |cands| > MAX_R)
    && (r.Err? ==> r.error == if depth == 0 then WorkspaceTooSmall else CandidateDepthTooLarge)
    && (r.Ok? ==>
          && BestOf(cands, held)
          && r.value.scan.scanned == |held| && r.value.rerank.candidates == |cands| && r.value.rerank.dropped == 0
          && exists exact: seq<Candidate> ::
               AllRescored(img, m, query, cands, exact) && Delivered(exact, k, was, now, r.value.returned))
  }

  predicate AllRescored(img: Bytes, m: Manifest, query: seq<int>, cands: seq<Candidate>, exact: seq<Candidate>)
    requires Supported(m)
  {
    |exact| == |cands| && forall i :: 0 <= i < |cands| ==> Rescored(img, m, query, cands[i].id, exact[i])
  }

  /** The best of `exact`, as many as asked for and as fit, and nothing past them. */
  ghost predicate Delivered(exact: seq<Candidate>, k: nat, was: seq<Candidate>, now: seq<Candidate>, returned: nat)
    requires |was| == |now|
  {
    && returned == Min(Min(k, |exact|), |now|)
    && now[..returned] == Top(returned, exact) && BestOf(now[..returned], exact) && now[returned..] == was[returned..]
  }

  /** One query of a sound volume, from the payload reader to the answer. */
  method QueryVolume(reader: PayloadReader, m: Manifest, ghost h: nat, ghost rows: nat, u: Setup, query: seq<int>, k: nat,
                     scores: array<int>, ids: array<nat>, out: array<Candidate>)
    returns (r: Result<QueryStats, QueryError>)
    requires reader.Valid() && Sound(reader.flash.image, m, h)
    requires Supported(m) && reader.shape == ShapeOf(m)
    requires reader.base == PayloadArea(m).base && reader.recordBytes == PayloadArea(m).width
    requires Fitting(u, PayloadArea(m), rows)
    requires scores as object != ids as object && out as object != scores as object && out as object != ids as object
    modifies reader, scores, ids, out
    ensures WalksHeld(reader.flash.image, m)
    ensures SoundAnswer(reader.flash.image, m, HeldHits(reader.flash.image, m, u), query, k, Min(scores.Length, ids.Length),
                        old(out[..]), out[..], r)
  {
    hide Sound, Supported, PayloadArea, RerankArea, PayloadReader.Valid, Walkable, Fitting, InArea, Rescored, Hit, StageOne,
      Rerank.Survivors, Rerank.FirstError, BestOf, Rerank.Losses;
    ghost var img, s, a := reader.flash.image, ShapeOf(m), PayloadArea(m);
    SoundWalk(img, m, h);
    var runs := ServeAll(reader, PayloadArea(m));
    WalkHits(img, s, a, u, rows, 0);
    WalkServesHeld(s, 0);
    FirstIdIs(s, 0);
    ghost var held := HeldHits(img, m, u);
    assert AllCandidates(u, runs) == held;
    ghost var cands := Top(Min(scores.Length, ids.Length), held);
    TopIsHeld(img, m, a, u, s.HeldIds(0), Min(scores.Length, ids.Length));
    SoundVolumeDropsNothing(img, m, h, cands, query);
    r := RunQuery(u, Payload(runs, None), SourceOn(reader.flash.image, m), BLOCK_BYTES, query, k, scores, ids, out);
    assert StageOne(u, runs, Min(scores.Length, ids.Length)) == cands by {
      StageOneIs(u, runs, Min(scores.Length, ids.Length));
    }
    if r.Ok? {
      ghost var exact := Rerank.Survivors(cands, SourceOn(img, m), BLOCK_BYTES, query);
      assert AllRescored(img, m, query, cands, exact);
      assert Delivered(exact, k, old(out[..]), out[..], r.value.returned);
    }
  }

  lemma StageOneIs(u: Setup, runs: seq<CodeRun>, depth: nat)
    ensures StageOne(u, runs, depth) == Top(depth, AllCandidates(u, runs))
  {}
}
