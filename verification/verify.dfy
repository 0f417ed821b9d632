/** The whole-volume sweep: which blocks are written, and which of them fail their CRC. */
module Verify {
  import opened Options
  import opened Flash
  import opened Codec
  import opened Manifests
  import opened Arith
  import opened Layouts
  import opened Volumes
  import Crc

  // ---------------------------------------------------------------- written_runs

  /** Block runs that hold written data, half-open: one for a built volume, two when a gap lies between. */
  function WrittenRuns(m: Manifest, per: nat): seq<(nat, nat)>
    requires per > 0 && m.RangeOrdered()
  {
    var built := CeilDiv(m.builtN, per);
    if m.Appended() == 0 then [(0, built)]
    else
      var start, end := m.appendedFrom / per, CeilDiv(m.n, per);
      if start <= built then [(0, end)] else [(0, built), (start, end)]
  }

  predicate InRun(runs: seq<(nat, nat)>, b: nat) {
    exists i :: 0 <= i < |runs| && runs[i].0 <= b < runs[i].1
  }

  /** The runs are exactly the blocks that contain a held id. */
  lemma RunsAreWritten(m: Manifest, per: nat, b: nat)
    requires per > 0 && m.RangeOrdered()
    ensures InRun(WrittenRuns(m, per), b) <==> Written(m, per, b)
    ensures InRun(WrittenRuns(m, per), b) <==> exists id: nat :: b * per <= id < b * per + per && m.Holds(id)
  {
    WrittenHoldsAnId(m, per, b);
    BelowCeil(b, m.builtN, per);
    BelowCeil(b, m.n, per);
    BelowCeil(CeilDiv(m.builtN, per), m.n, per);
    StartsAt(b, m.appendedFrom, per);
    var runs := WrittenRuns(m, per);
    RunMembers(runs, b);
    BuiltBelowEnd(m, per);
  }

  lemma RunMembers(runs: seq<(nat, nat)>, b: nat)
    requires 1 <= |runs| <= 2
    ensures InRun(runs, b) <==> (runs[0].0 <= b < runs[0].1 || (|runs| == 2 && runs[1].0 <= b < runs[1].1))
  {
    if runs[0].0 <= b < runs[0].1 {
      assert InRun(runs, b);
    }
    if |runs| == 2 && runs[1].0 <= b < runs[1].1 {
      assert InRun(runs, b);
    }
  }

  lemma BuiltBelowEnd(m: Manifest, per: nat)
    requires per > 0 && m.RangeOrdered()
    ensures CeilDiv(m.builtN, per) <= CeilDiv(m.n, per)
  {
    BelowCeil(CeilDiv(m.n, per), m.builtN, per);
  }

  /** `from / per` is the first block that reaches past `from`. */
  lemma StartsAt(b: nat, from: nat, per: nat)
    requires per > 0
    ensures from / per <= b <==> from < b * per + per
  {
    DivMod(from, per);
    ProductOrder(from / per, b, per);
    ProductOrder(b, from / per, per);
  }

  // ---------------------------------------------------------------- the sweep

  /** Blocks of `[from, upto)` whose CRC does not match, in order; or the first read that fails. */
  function BadIn(img: Bytes, a: Area, from: nat, upto: nat): Result<seq<nat>, FlashError>
    decreases upto - from
  {
    if from >= upto then Ok([])
    else
      match BadIn(img, a, from, upto - 1)
      case Err(e) => Err(e)
      case Ok(bad) =>
        var b := upto - 1;
        if BlockAddr(a, b) + BLOCK_BYTES > |img| then Err(OutOfBounds(BlockAddr(a, b)))
        else if CrcAddr(a, b) + CRC_BYTES > |img| then Err(OutOfBounds(CrcAddr(a, b)))
        else if Matches(img, a, b) then Ok(bad) else Ok(bad + [b])
  }

  predicate Matches(img: Bytes, a: Area, b: nat)
    requires BlockAddr(a, b) + BLOCK_BYTES <= |img| && CrcAddr(a, b) + CRC_BYTES <= |img|
  {
    Crc.Crc32(Slice(img, BlockAddr(a, b), BLOCK_BYTES)) == CrcWord(Slice(img, CrcAddr(a, b), CRC_BYTES))
  }

  function BadRuns(img: Bytes, a: Area, runs: seq<(nat, nat)>): Result<seq<nat>, FlashError> {
    if runs == [] then Ok([])
    else
      var k := |runs| - 1;
      match BadRuns(img, a, runs[..k])
      case Err(e) => Err(e)
      case Ok(bad) =>
        match BadIn(img, a, runs[k].0, runs[k].1)
        case Err(e) => Err(e)
        case Ok(more) => Ok(bad + more)
  }

  lemma {:induction false} BadInStops(img: Bytes, a: Area, from: nat, k: nat, upto: nat)
    requires from <= k <= upto && BadIn(img, a, from, k).Err?
    ensures BadIn(img, a, from, upto) == BadIn(img, a, from, k)
    decreases upto - k
  {
    hide Matches;
    if k < upto {
      BadInStops(img, a, from, k, upto - 1);
    }
  }

  method SweepRun(flash: WritableVolume, a: Area, from: nat, upto: nat) returns (r: Result<seq<nat>, FlashError>)
    ensures r == BadIn(flash.image, a, from, upto)
  {
    hide Slice, CrcWord, Crc.Crc32;
    var bad: seq<nat> := [];
    var b := from;
    while b < upto
      invariant from <= b && (b <= upto || b == from) && (b == from ==> bad == [])
      invariant BadIn(flash.image, a, from, b) == Ok(bad)
    {
      var block := flash.Read(BlockAddr(a, b), BLOCK_BYTES);
      if block.Err? {
        BadInStops(flash.image, a, from, b + 1, upto);
        return Err(block.error);
      }
      var raw := flash.Read(CrcAddr(a, b), CRC_BYTES);
      if raw.Err? {
        BadInStops(flash.image, a, from, b + 1, upto);
        return Err(raw.error);
      }
      if Crc.Crc32(block.value) != CrcWord(raw.value) {
        bad := bad + [b];
      }
      b := b + 1;
    }
    return Ok(bad);
  }

  lemma {:induction false} BadRunsStop(img: Bytes, a: Area, runs: seq<(nat, nat)>, k: nat)
    requires k <= |runs| && BadRuns(img, a, runs[..k]).Err?
    ensures BadRuns(img, a, runs) == BadRuns(img, a, runs[..k])
    decreases |runs| - k
  {
    hide BadIn;
    if k < |runs| {
      assert runs[..k + 1][..k] == runs[..k];
      BadRunsStop(img, a, runs, k + 1);
    } else {
      assert runs[..k] == runs;
    }
  }

  method SweepRegion(flash: WritableVolume, a: Area, runs: seq<(nat, nat)>) returns (r: Result<seq<nat>, FlashError>)
    ensures r == BadRuns(flash.image, a, runs)
  {
    hide BadIn;
    var bad: seq<nat> := [];
    var k := 0;
    while k < |runs|
      invariant 0 <= k <= |runs|
      invariant BadRuns(flash.image, a, runs[..k]) == Ok(bad)
    {
      assert runs[..k + 1][..k] == runs[..k];
      var run := SweepRun(flash, a, runs[k].0, runs[k].1);
      if run.Err? {
        BadRunsStop(flash.image, a, runs, k + 1);
        return Err(run.error);
      }
      bad := bad + run.value;
      k := k + 1;
    }
    assert runs[..k] == runs;
    return Ok(bad);
  }

  // ---------------------------------------------------------------- what the sweep finds

  lemma {:induction false} BadInIs(img: Bytes, a: Area, from: nat, upto: nat)
    requires forall b: nat | from <= b < upto :: Fits(a, b, |img|)
    ensures BadIn(img, a, from, upto).Ok?
    ensures forall b: nat :: b in BadIn(img, a, from, upto).value <==> from <= b < upto && !(Fits(a, b, |img|) && Sealed(img, a, b))
    decreases upto - from
  {
    hide Slice, CrcWord, Crc.Crc32, CrcBytes;
    if from < upto {
      BadInIs(img, a, from, upto - 1);
      WordMatches(CrcAt(img, a, upto - 1), Crc.Crc32(BlockAt(img, a, upto - 1)));
    }
  }

  /** The sweep reports exactly the written blocks whose CRC word does not match. */
  lemma {:induction false} BadRunsAre(img: Bytes, a: Area, runs: seq<(nat, nat)>)
    requires forall b: nat | InRun(runs, b) :: Fits(a, b, |img|)
    ensures BadRuns(img, a, runs).Ok?
    ensures forall b: nat :: b in BadRuns(img, a, runs).value <==> InRun(runs, b) && !(Fits(a, b, |img|) && Sealed(img, a, b))
    decreases |runs|
  {
    hide BadIn, Sealed, Fits;
    if runs != [] {
      var k := |runs| - 1;
      forall b: nat
        ensures InRun(runs, b) <==> InRun(runs[..k], b) || runs[k].0 <= b < runs[k].1
      {
        LastRun(runs, b);
      }
      BadRunsAre(img, a, runs[..k]);
      BadInIs(img, a, runs[k].0, runs[k].1);
    }
  }

  lemma LastRun(runs: seq<(nat, nat)>, b: nat)
    requires runs != []
    ensures var k := |runs| - 1;
            InRun(runs, b) <==> InRun(runs[..k], b) || runs[k].0 <= b < runs[k].1
  {
    var k := |runs| - 1;
    if InRun(runs, b) {
      var i :| 0 <= i < |runs| && runs[i].0 <= b < runs[i].1;
      if i < k {
        assert runs[..k][i].0 <= b < runs[..k][i].1;
      }
    }
    if InRun(runs[..k], b) {
      var i :| 0 <= i < k && runs[..k][i].0 <= b < runs[..k][i].1;
      assert runs[i].0 <= b < runs[i].1;
    }
  }

  /** A sweep of an area whose held blocks are sealed finds nothing. */
  lemma SealedSweepIsClean(img: Bytes, m: Manifest, a: Area)
    requires a.per > 0 && m.RangeOrdered() && HeldSealed(img, m, a)
    ensures BadRuns(img, a, WrittenRuns(m, a.per)) == Ok([])
  {
    hide BadRuns, WrittenRuns, Sealed, Fits, Written;
    var runs := WrittenRuns(m, a.per);
    forall b: nat
      ensures InRun(runs, b) <==> Written(m, a.per, b)
    {
      RunsAreWritten(m, a.per, b);
    }
    BadRunsAre(img, a, runs);
    FirstIsMember(BadRuns(img, a, runs).value);
  }

  lemma FirstIsMember(s: seq<nat>)
    ensures s == [] || s[0] in s
  {}

  /** So `verify` reports a sound volume clean, in both regions, before and after any append. */
  lemma SoundIsClean(img: Bytes, m: Manifest, h: nat)
    requires Sound(img, m, h)
    ensures m.RangeOrdered()
    ensures BadRuns(img, PayloadArea(m), WrittenRuns(m, PayloadArea(m).per)) == Ok([])
    ensures BadRuns(img, RerankArea(m), WrittenRuns(m, RerankArea(m).per)) == Ok([])
  {
    hide HeldSealed, Frontier, Installed, BadRuns, WrittenRuns, PayloadArea, RerankArea;
    SealedSweepIsClean(img, m, PayloadArea(m));
    SealedSweepIsClean(img, m, RerankArea(m));
  }
}
