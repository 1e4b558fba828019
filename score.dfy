/** Peak scoring (bin/scripts/score.py): the overlap-weighted mean of a
    track over a window around each peak summit, and the nested table
    biosource -> transcription factor -> chromosome -> samples. */
module Score {
  import opened Util
  import opened Tracks

  /** A called peak: interval start and end and the summit's offset from `start`.
      The index built by the peak-index builder stores [start, end, peak]. */
  datatype Peak = Peak(start: int, end: int, summit: int)

  /** One scored peak, in the order the table stores it:
      [windowStart, windowEnd, chipMean, atacMean]. */
  datatype Sample = Sample(windowStart: int, windowEnd: int, chipMean: real, atacMean: real)

  function Min(a: int, b: int): int { if a <= b then a else b }
  function Max(a: int, b: int): int { if a >= b then a else b }

  // --------------------------------------------------------------------
  // calculate_mean
  // --------------------------------------------------------------------

  /** The length of the part of an interval that lies inside the window [ws, we) */
  function OverlapLength(iv: Interval, ws: int, we: int): int {
    Min(iv.end, we) - Max(iv.start, ws)
  }

  /** A non-empty interval overlapping a non-empty window shares between 1 and
      the window length positions with it. */
  lemma OverlapLengthBounds(iv: Interval, ws: int, we: int)
    requires iv.start < iv.end && Overlaps(iv, ws, we) && ws < we
    ensures 0 < OverlapLength(iv, ws, we) <= we - ws
  {
  }

  /** One interval's share of the weighted sum: its overlap length times its value */
  function Weighted(iv: Interval, ws: int, we: int): real {
    OverlapLength(iv, ws, we) as real * iv.value
  }

  /** A value in [0, 1] keeps an interval's share between 0 and its overlap length. */
  lemma WeightedBounds(iv: Interval, ws: int, we: int)
    requires ws < we && iv.start < iv.end && Overlaps(iv, ws, we) && 0.0 <= iv.value <= 1.0
    ensures 0.0 <= Weighted(iv, ws, we) <= OverlapLength(iv, ws, we) as real
  {
    OverlapLengthBounds(iv, ws, we);
    ScaledBelow(Weighted(iv, ws, we), OverlapLength(iv, ws, we) as real, iv.value);
  }

  /** Sum over the intervals of overlap length times value */
  function WeightedSum(ivs: seq<Interval>, ws: int, we: int): real
    decreases |ivs|
  {
    if ivs == [] then 0.0
    else WeightedSum(ivs[..|ivs| - 1], ws, we) + Weighted(ivs[|ivs| - 1], ws, we)
  }

  /** Sum of the overlap lengths alone */
  function CoveredLength(ivs: seq<Interval>, ws: int, we: int): int
    decreases |ivs|
  {
    if ivs == [] then 0
    else CoveredLength(ivs[..|ivs| - 1], ws, we) + OverlapLength(ivs[|ivs| - 1], ws, we)
  }

  /** The window mean: weighted sum divided by the window length */
  function Mean(ivs: seq<Interval>, ws: int, we: int): real
    requires ws < we
  {
    WeightedSum(ivs, ws, we) / (we - ws) as real
  }

  /** calculate_mean: accumulates `mean += interval_length * value` over the
      intervals, then divides by the window length. */
  method CalculateMean(ivs: seq<Interval>, ws: int, we: int) returns (mean: real)
    requires ws < we
    ensures mean == Mean(ivs, ws, we)
    ensures ivs == [] ==> mean == 0.0
  {
    var length := we - ws;
    mean := 0.0;
    var k := 0;
    while k < |ivs|
      invariant 0 <= k <= |ivs|
      invariant mean == WeightedSum(ivs[..k], ws, we)
    {
      var iv := ivs[k];
      var intervalLength: int;
      if iv.start < ws && iv.end > we {
        intervalLength := we - ws;
      } else if iv.end > we {
        intervalLength := we - iv.start;
      } else if iv.start < ws {
        intervalLength := iv.end - ws;
      } else {
        intervalLength := iv.end - iv.start;
      }
      assert ivs[..k + 1][..k] == ivs[..k];
      mean := mean + intervalLength as real * iv.value;
      k := k + 1;
    }
    assert ivs[..k] == ivs;
    mean := mean / length as real;
  }

  /** One interval covering the whole window, exactly or with margin, gives its value. */
  lemma FullCoverMean(iv: Interval, ws: int, we: int)
    requires ws < we && iv.start <= ws && we <= iv.end
    ensures Mean([iv], ws, we) == iv.value
  {
    assert [iv][..0] == [];
    var len := (we - ws) as real;
    assert OverlapLength(iv, ws, we) as real == len;
    assert WeightedSum([iv], ws, we) == len * iv.value;
    assert len * iv.value / len == iv.value;
  }

  /** Two intervals each covering one half of the window give the average of their values. */
  lemma HalvesMean(ws: int, mid: int, we: int, v1: real, v2: real)
    requires ws < mid < we && mid - ws == we - mid
    ensures Mean([Interval(ws, mid, v1), Interval(mid, we, v2)], ws, we) == (v1 + v2) / 2.0
  {
    var ivs := [Interval(ws, mid, v1), Interval(mid, we, v2)];
    assert ivs[..1] == [Interval(ws, mid, v1)];
    assert ivs[..1][..0] == [];
    var h := (mid - ws) as real;
    assert OverlapLength(ivs[0], ws, we) as real == h;
    assert OverlapLength(ivs[1], ws, we) as real == h;
    assert WeightedSum(ivs[..1], ws, we) == h * v1;
    assert WeightedSum(ivs, ws, we) == h * v1 + h * v2;
    assert h * v1 + h * v2 == h * (v1 + v2);
    assert (we - ws) as real == 2.0 * h;
    assert h * (v1 + v2) / (2.0 * h) == (v1 + v2) / 2.0;
  }

  /** For sorted, non-overlapping intervals that each overlap the window, the
      overlaps add up to at most the window (from `ws` up to the bound `e` on all ends). */
  lemma {:induction false} CoveredLengthBound(ivs: seq<Interval>, ws: int, we: int, e: int)
    requires ws < we && e >= ws
    requires Disjoint(ivs)
    requires forall i :: 0 <= i < |ivs| ==> Overlaps(ivs[i], ws, we) && ivs[i].end <= e
    ensures 0 <= CoveredLength(ivs, ws, we) <= Min(e, we) - ws
    decreases |ivs|
  {
    if ivs != [] {
      var pre := ivs[..|ivs| - 1];
      var last := ivs[|ivs| - 1];
      if pre == [] {
        assert CoveredLength(ivs, ws, we) == OverlapLength(last, ws, we);
      } else {
        assert pre[0] == ivs[0] && ivs[0].end <= last.start;
        assert Disjoint(pre) by {
          forall i, j | 0 <= i < j < |pre| ensures pre[i].end <= pre[j].start {
            assert pre[i] == ivs[i] && pre[j] == ivs[j];
          }
        }
        forall i | 0 <= i < |pre| ensures Overlaps(pre[i], ws, we) && pre[i].end <= last.start {
          assert pre[i] == ivs[i];
        }
        CoveredLengthBound(pre, ws, we, last.start);
      }
    }
  }

  /** Values in [0, 1] put the weighted sum between 0 and the covered length. */
  lemma {:induction false} WeightedSumBound(ivs: seq<Interval>, ws: int, we: int)
    requires ws < we
    requires ValuesIn(ivs, 0.0, 1.0)
    requires forall i :: 0 <= i < |ivs| ==> ivs[i].start < ivs[i].end && Overlaps(ivs[i], ws, we)
    ensures 0.0 <= WeightedSum(ivs, ws, we) <= CoveredLength(ivs, ws, we) as real
    decreases |ivs|
  {
    if ivs != [] {
      var pre := ivs[..|ivs| - 1];
      var last := ivs[|ivs| - 1];
      assert ValuesIn(pre, 0.0, 1.0) && 0.0 <= last.value <= 1.0 by {
        forall i | 0 <= i < |pre| ensures pre[i] == ivs[i] { }
      }
      assert forall i :: 0 <= i < |pre| ==> pre[i].start < pre[i].end && Overlaps(pre[i], ws, we) by {
        forall i | 0 <= i < |pre| ensures pre[i] == ivs[i] { }
      }
      WeightedSumBound(pre, ws, we);
      WeightedBounds(last, ws, we);
      AddBounded(WeightedSum(ivs, ws, we), WeightedSum(pre, ws, we), Weighted(last, ws, we),
                 CoveredLength(ivs, ws, we), CoveredLength(pre, ws, we), OverlapLength(last, ws, we));
    }
  }

  /** A sum within [0, c] plus a part within [0, n] lies within [0, c + n]. */
  lemma AddBounded(total: real, a: real, p: real, len: int, c: int, n: int)
    requires total == a + p && len == c + n
    requires 0.0 <= a <= c as real
    requires 0.0 <= p <= n as real
    ensures 0.0 <= total <= len as real
  {
  }

  /** A length n weighted by a value in [0, 1] lies between 0 and n. */
  lemma ScaledBelow(p: real, n: real, v: real)
    requires p == n * v
    requires n >= 0.0 && 0.0 <= v <= 1.0
    ensures 0.0 <= p <= n
  {
    assert n - n * v == n * (1.0 - v);
  }

  /** The mean of a query on a track whose values lie in [0, 1] lies in [0, 1]:
      the scores of min-max normalised tracks stay in [0, 1]. */
  lemma MeanWithinUnit(ivs: seq<Interval>, ws: int, we: int)
    requires ws < we
    requires Disjoint(ivs) && ValuesIn(ivs, 0.0, 1.0)
    ensures 0.0 <= Mean(Query(ivs, ws, we), ws, we) <= 1.0
  {
    var q := Query(ivs, ws, we);
    QueryProperties(ivs, ws, we);
    QueryValuesIn(ivs, ws, we, 0.0, 1.0);
    var e := if q == [] then ws else q[|q| - 1].end;
    EndsBelowLast(q);
    CoveredLengthBound(q, ws, we, e);
    WeightedSumBound(q, ws, we);
    UnitFraction(WeightedSum(q, ws, we), (we - ws) as real);
  }

  // --------------------------------------------------------------------
  // findarea: specification
  // --------------------------------------------------------------------

  /** chromosome -> samples */
  type ChromSamples = map<string, seq<Sample>>
  /** transcription factor -> chromosome -> samples */
  type TfSamples = map<string, ChromSamples>
  /** biosource -> transcription factor -> chromosome -> samples */
  type ScoreTable = map<string, TfSamples>

  /** The chip pickle of one biosource: tf -> chip bigWig path -> chromosome -> peaks */
  type PeakIndex = Dict<Dict<Dict<seq<Peak>>>>
  /** The atac pickle of one biosource: chromosome -> atac bigWig path */
  type AccessIndex = map<string, string>

  /** What findarea reads from disk for one genome: the two pickles per
      biosource that exist, and the bigWig files that open. */
  datatype Store = Store(chip: map<string, PeakIndex>, atac: map<string, AccessIndex>,
                         bigwigs: map<string, Track>)

  /** findarea's one uncaught failure: `atacdict[chromosom]` for a chromosome
      the atac pickle does not hold (KeyError). */
  datatype ScoreError = MissingAccessTrack(chrom: string)

  /** A peak as the peak-index builder stores it: the list [start, end, summit]. */
  function Record(p: Peak): (r: seq<int>)
    ensures |r| == 3 && r[0] == p.start && r[1] == p.end && r[2] == p.summit
  {
    [p.start, p.end, p.summit]
  }

  /** The loop over a chromosome's peak records as written reads
      `start = binding[0]` and `peak = binding[3]`; a record with fewer than
      four cells raises IndexError (None), which the surrounding
      `except RuntimeError` does not catch. */
  function BindingAsWritten(b: seq<int>): (r: Option<(int, int)>)
    ensures r.Some? <==> |b| >= 4
    ensures r.Some? ==> r.value == (b[0], b[3])
  {
    if |b| >= 4 then Some((b[0], b[3])) else None
  }

  /** The read intended: the summit offset is the third cell of a record. */
  function Binding(b: seq<int>): (r: Option<Peak>)
    ensures r.Some? <==> |b| >= 3
    ensures r.Some? ==> r.value.start == b[0] && r.value.summit == b[2]
  {
    if |b| >= 3 then Some(Peak(b[0], b[1], b[2])) else None
  }

  /** Every stored record makes the as-written read raise IndexError. */
  lemma StoredRecordRaises(p: Peak)
    ensures BindingAsWritten(Record(p)).None?
  {
  }

  /** The intended read gives back the stored peak, so the scored window is
      centred on the stored summit. */
  lemma BindingRecord(p: Peak, w: int)
    ensures Binding(Record(p)) == Some(p)
    ensures WindowStart(p, w) == Record(p)[0] + Record(p)[2] - w
    ensures WindowEnd(p, w) == Record(p)[0] + Record(p)[2] + w
  {
  }

  /** The window around a peak summit */
  function WindowStart(p: Peak, w: int): int { p.start + p.summit - w }
  function WindowEnd(p: Peak, w: int): int { p.start + p.summit + w }

  /** Both tracks accept the window of peak p on chromosome chrom. */
  predicate PeakFits(chip: Track, atac: Track, chrom: string, p: Peak, w: int)
    requires chrom in chip && chrom in atac
  {
    QueryBounds(chip[chrom], WindowStart(p, w), WindowEnd(p, w))
    && QueryBounds(atac[chrom], WindowStart(p, w), WindowEnd(p, w))
  }

  /** The sample for one peak: none when the chromosome is missing from either
      track; None when either `intervals` call raises RuntimeError on the
      window's bounds. */
  function PeakSample(chip: Track, atac: Track, chrom: string, p: Peak, w: int): Option<seq<Sample>>
    requires w > 0
  {
    var ws := WindowStart(p, w);
    var we := WindowEnd(p, w);
    if chrom in chip && chrom in atac then
      if PeakFits(chip, atac, chrom, p, w) then
        Some([Sample(ws, we, Mean(Query(chip[chrom].intervals, ws, we), ws, we),
                             Mean(Query(atac[chrom].intervals, ws, we), ws, we))])
      else None
    else Some([])
  }

  /** The samples appended for a chromosome's peaks, and whether a window
      raised RuntimeError, which ends the scan of the chip file */
  datatype PeakScan = PeakScan(samples: seq<Sample>, failed: bool)

  /** The samples of a chromosome's peaks, in peak order, up to the first
      window either track rejects */
  function PeakSamples(chip: Track, atac: Track, chrom: string, peaks: seq<Peak>, w: int): PeakScan
    requires w > 0
    decreases |peaks|
  {
    if peaks == [] then PeakScan([], false)
    else
      var pre := PeakSamples(chip, atac, chrom, peaks[..|peaks| - 1], w);
      if pre.failed then pre
      else
        match PeakSample(chip, atac, chrom, peaks[|peaks| - 1], w)
        case None => PeakScan(pre.samples, true)
        case Some(s) => PeakScan(pre.samples + s, false)
  }

  /** Where the scan of one chip file's chromosomes stands */
  datatype FileScan =
    | Scanning(samples: ChromSamples)
    | Stopped(samples: ChromSamples)         // RuntimeError: a bigWig failed to open or rejected a window
    | Missing(chrom: string)                 // KeyError on the atac pickle

  /** One chromosome of a chip file */
  function ChromStep(st: FileScan, chip: Track, atacIdx: AccessIndex, bigwigs: map<string, Track>,
                     chrList: seq<string>, e: Entry<seq<Peak>>, w: int): FileScan
    requires w > 0
  {
    if !st.Scanning? || e.key !in chrList then st
    else
      var m := if e.key in st.samples then st.samples else st.samples[e.key := []];
      if e.key !in atacIdx then Missing(e.key)
      else if atacIdx[e.key] !in bigwigs then Stopped(m)
      else
        var ps := PeakSamples(chip, bigwigs[atacIdx[e.key]], e.key, e.value, w);
        var m' := m[e.key := m[e.key] + ps.samples];
        if ps.failed then Stopped(m') else Scanning(m')
  }

  function ChromFold(st: FileScan, chip: Track, atacIdx: AccessIndex, bigwigs: map<string, Track>,
                     chrList: seq<string>, chroms: Dict<seq<Peak>>, w: int): FileScan
    requires w > 0
    decreases |chroms|
  {
    if chroms == [] then st
    else ChromStep(ChromFold(st, chip, atacIdx, bigwigs, chrList, chroms[..|chroms| - 1], w),
                   chip, atacIdx, bigwigs, chrList, chroms[|chroms| - 1], w)
  }

  /** One chip file of a tf: skipped when it does not open; a RuntimeError
      while scanning ends only this file. */
  function FileStep(r: Result<ChromSamples, ScoreError>, atacIdx: AccessIndex, bigwigs: map<string, Track>,
                    chrList: seq<string>, e: Entry<Dict<seq<Peak>>>, w: int): Result<ChromSamples, ScoreError>
    requires w > 0
  {
    if r.Err? || e.key !in bigwigs then r
    else
      match ChromFold(Scanning(r.value), bigwigs[e.key], atacIdx, bigwigs, chrList, e.value, w)
      case Scanning(m) => Ok(m)
      case Stopped(m) => Ok(m)
      case Missing(c) => Err(MissingAccessTrack(c))
  }

  function FileFold(r: Result<ChromSamples, ScoreError>, atacIdx: AccessIndex, bigwigs: map<string, Track>,
                    chrList: seq<string>, files: Dict<Dict<seq<Peak>>>, w: int): Result<ChromSamples, ScoreError>
    requires w > 0
    decreases |files|
  {
    if files == [] then r
    else FileStep(FileFold(r, atacIdx, bigwigs, chrList, files[..|files| - 1], w),
                  atacIdx, bigwigs, chrList, files[|files| - 1], w)
  }

  /** One tf of a biosource's chip pickle: only requested tfs; the tf key is
      dropped again when it ended up with no chromosome. */
  function TfStep(r: Result<TfSamples, ScoreError>, atacIdx: AccessIndex, bigwigs: map<string, Track>,
                  tfList: seq<string>, chrList: seq<string>, e: Entry<Dict<Dict<seq<Peak>>>>, w: int)
    : Result<TfSamples, ScoreError>
    requires w > 0
  {
    if r.Err? || e.key !in tfList then r
    else
      var start := if e.key in r.value then r.value[e.key] else map[];
      match FileFold(Ok(start), atacIdx, bigwigs, chrList, e.value, w)
      case Err(x) => Err(x)
      case Ok(m) => Ok(if |m| == 0 then r.value - {e.key} else r.value[e.key := m])
  }

  function TfFold(r: Result<TfSamples, ScoreError>, atacIdx: AccessIndex, bigwigs: map<string, Track>,
                  tfList: seq<string>, chrList: seq<string>, tfs: PeakIndex, w: int): Result<TfSamples, ScoreError>
    requires w > 0
    decreases |tfs|
  {
    if tfs == [] then r
    else TfStep(TfFold(r, atacIdx, bigwigs, tfList, chrList, tfs[..|tfs| - 1], w),
                atacIdx, bigwigs, tfList, chrList, tfs[|tfs| - 1], w)
  }

  /** Both pickles of the biosource exist and are non-empty */
  predicate HasData(store: Store, b: string) {
    b in store.chip && b in store.atac && |store.chip[b]| > 0 && |store.atac[b]| > 0
  }

  /** One requested biosource: skipped without both pickles; the biosource key
      is dropped again when it ended up with no tf. */
  function BioStep(r: Result<ScoreTable, ScoreError>, store: Store, tfList: seq<string>,
                   chrList: seq<string>, b: string, w: int): Result<ScoreTable, ScoreError>
    requires w > 0
  {
    if r.Err? || !HasData(store, b) then r
    else
      var start := if b in r.value then r.value[b] else map[];
      match TfFold(Ok(start), store.atac[b], store.bigwigs, tfList, chrList, store.chip[b], w)
      case Err(x) => Err(x)
      case Ok(t) => Ok(if |t| == 0 then r.value - {b} else r.value[b := t])
  }

  function BioFold(r: Result<ScoreTable, ScoreError>, store: Store, tfList: seq<string>,
                   chrList: seq<string>, bios: seq<string>, w: int): Result<ScoreTable, ScoreError>
    requires w > 0
    decreases |bios|
  {
    if bios == [] then r
    else BioStep(BioFold(r, store, tfList, chrList, bios[..|bios| - 1], w),
                 store, tfList, chrList, bios[|bios| - 1], w)
  }

  /** The table findarea returns for width `w` */
  function FindAreaSpec(store: Store, w: int, bios: seq<string>, tfList: seq<string>,
                        chrList: seq<string>): Result<ScoreTable, ScoreError>
    requires w > 0
  {
    BioFold(Ok(map[]), store, tfList, chrList, bios, w)
  }

  // --------------------------------------------------------------------
  // findarea: the loops
  // --------------------------------------------------------------------

  /** One more peak: a scan that already failed stays as it is, otherwise the
      peak's sample is appended or its window ends the scan. */
  lemma PeakSamplesStep(chip: Track, atac: Track, chrom: string, peaks: seq<Peak>, k: nat, w: int)
    requires w > 0 && k < |peaks| && !PeakSamples(chip, atac, chrom, peaks[..k], w).failed
    ensures var pre := PeakSamples(chip, atac, chrom, peaks[..k], w);
      PeakSamples(chip, atac, chrom, peaks[..k + 1], w)
        == match PeakSample(chip, atac, chrom, peaks[k], w)
           case None => PeakScan(pre.samples, true)
           case Some(s) => PeakScan(pre.samples + s, false)
  {
    assert peaks[..k + 1][..k] == peaks[..k];
  }

  /** Once a window is rejected, the later peaks change nothing. */
  lemma {:induction false} PeakSamplesStays(chip: Track, atac: Track, chrom: string, peaks: seq<Peak>, k: nat, w: int)
    requires w > 0 && k <= |peaks| && PeakSamples(chip, atac, chrom, peaks[..k], w).failed
    ensures PeakSamples(chip, atac, chrom, peaks, w) == PeakSamples(chip, atac, chrom, peaks[..k], w)
    decreases |peaks| - k
  {
    if k < |peaks| {
      assert peaks[..k + 1][..k] == peaks[..k];
      PeakSamplesStays(chip, atac, chrom, peaks, k + 1, w);
    } else {
      assert peaks[..k] == peaks;
    }
  }

  /** The innermost loop over a chromosome's peaks; `intervals` is called on
      the chip track first, then on the atac track. */
  method ScorePeaks(chip: Track, atac: Track, chrom: string, peaks: seq<Peak>, w: int)
    returns (scan: PeakScan)
    requires w > 0
    ensures scan == PeakSamples(chip, atac, chrom, peaks, w)
  {
    var samples := [];
    var failed := false;
    var k := 0;
    while k < |peaks| && !failed
      invariant 0 <= k <= |peaks|
      invariant PeakSamples(chip, atac, chrom, peaks[..k], w) == PeakScan(samples, failed)
    {
      var p := peaks[k];
      var peakLocation := p.start + p.summit;
      var ws := peakLocation - w;
      var we := peakLocation + w;
      PeakSamplesStep(chip, atac, chrom, peaks, k, w);
      if chrom in chip && chrom in atac {
        if !QueryBounds(chip[chrom], ws, we) || !QueryBounds(atac[chrom], ws, we) {
          failed := true;
        } else {
          var chipMean := CalculateMean(Query(chip[chrom].intervals, ws, we), ws, we);
          var atacMean := CalculateMean(Query(atac[chrom].intervals, ws, we), ws, we);
          samples := samples + [Sample(ws, we, chipMean, atacMean)];
        }
      }
      k := k + 1;
    }
    if failed {
      PeakSamplesStays(chip, atac, chrom, peaks, k, w);
    } else {
      assert peaks[..k] == peaks;
    }
    scan := PeakScan(samples, failed);
  }

  /** The loop over the chromosomes of one opened chip file */
  method ScoreFile(chip: Track, atacIdx: AccessIndex, bigwigs: map<string, Track>,
                   chrList: seq<string>, chroms: Dict<seq<Peak>>, m0: ChromSamples, w: int)
    returns (st: FileScan)
    requires w > 0
    ensures st == ChromFold(Scanning(m0), chip, atacIdx, bigwigs, chrList, chroms, w)
  {
    st := Scanning(m0);
    var k := 0;
    while k < |chroms|
      invariant 0 <= k <= |chroms|
      invariant st == ChromFold(Scanning(m0), chip, atacIdx, bigwigs, chrList, chroms[..k], w)
      invariant st.Scanning?
    {
      assert chroms[..k + 1][..k] == chroms[..k];
      var e := chroms[k];
      if e.key in chrList {
        var m := st.samples;
        if e.key !in m {
          m := m[e.key := []];
        }
        if e.key !in atacIdx {
          st := Missing(e.key);
          StoppedScanStays(st, Scanning(m0), chip, atacIdx, bigwigs, chrList, chroms, k + 1, w);
          return;
        }
        if atacIdx[e.key] !in bigwigs {
          st := Stopped(m);
          StoppedScanStays(st, Scanning(m0), chip, atacIdx, bigwigs, chrList, chroms, k + 1, w);
          return;
        }
        var more := ScorePeaks(chip, bigwigs[atacIdx[e.key]], e.key, e.value, w);
        if more.failed {
          st := Stopped(m[e.key := m[e.key] + more.samples]);
          StoppedScanStays(st, Scanning(m0), chip, atacIdx, bigwigs, chrList, chroms, k + 1, w);
          return;
        }
        st := Scanning(m[e.key := m[e.key] + more.samples]);
      }
      k := k + 1;
    }
    assert chroms[..k] == chroms;
  }

  /** Once the scan of a file stops, the remaining chromosomes change nothing. */
  lemma {:induction false} StoppedScanStays(st: FileScan, s0: FileScan, chip: Track, atacIdx: AccessIndex,
                                            bigwigs: map<string, Track>, chrList: seq<string>,
                                            chroms: Dict<seq<Peak>>, k: nat, w: int)
    requires w > 0 && k <= |chroms| && !st.Scanning?
    requires ChromFold(s0, chip, atacIdx, bigwigs, chrList, chroms[..k], w) == st
    ensures ChromFold(s0, chip, atacIdx, bigwigs, chrList, chroms, w) == st
    decreases |chroms| - k
  {
    if k == |chroms| {
      assert chroms[..k] == chroms;
    } else {
      assert chroms[..k + 1][..k] == chroms[..k];
      StoppedScanStays(st, s0, chip, atacIdx, bigwigs, chrList, chroms, k + 1, w);
    }
  }

  /** The loop over the chip files of one tf */
  method ScoreTfFiles(atacIdx: AccessIndex, bigwigs: map<string, Track>, chrList: seq<string>,
                      files: Dict<Dict<seq<Peak>>>, m0: ChromSamples, w: int)
    returns (r: Result<ChromSamples, ScoreError>)
    requires w > 0
    ensures r == FileFold(Ok(m0), atacIdx, bigwigs, chrList, files, w)
  {
    var m := m0;
    var k := 0;
    while k < |files|
      invariant 0 <= k <= |files|
      invariant FileFold(Ok(m0), atacIdx, bigwigs, chrList, files[..k], w) == Ok(m)
    {
      assert files[..k + 1][..k] == files[..k];
      var e := files[k];
      if e.key in bigwigs {
        var st := ScoreFile(bigwigs[e.key], atacIdx, bigwigs, chrList, e.value, m, w);
        if st.Missing? {
          r := Err(MissingAccessTrack(st.chrom));
          FailedFilesStay(r, Ok(m0), atacIdx, bigwigs, chrList, files, k + 1, w);
          return;
        }
        m := st.samples;
      }
      k := k + 1;
    }
    assert files[..k] == files;
    r := Ok(m);
  }

  lemma {:induction false} FailedFilesStay(r: Result<ChromSamples, ScoreError>, r0: Result<ChromSamples, ScoreError>,
                                           atacIdx: AccessIndex, bigwigs: map<string, Track>, chrList: seq<string>,
                                           files: Dict<Dict<seq<Peak>>>, k: nat, w: int)
    requires w > 0 && k <= |files| && r.Err?
    requires FileFold(r0, atacIdx, bigwigs, chrList, files[..k], w) == r
    ensures FileFold(r0, atacIdx, bigwigs, chrList, files, w) == r
    decreases |files| - k
  {
    if k == |files| {
      assert files[..k] == files;
    } else {
      assert files[..k + 1][..k] == files[..k];
      FailedFilesStay(r, r0, atacIdx, bigwigs, chrList, files, k + 1, w);
    }
  }

  /** One requested tf, in terms of what its chip files gave */
  lemma TfStepIs(atacIdx: AccessIndex, bigwigs: map<string, Track>, tfList: seq<string>, chrList: seq<string>,
                 e: Entry<Dict<Dict<seq<Peak>>>>, w: int, t0: TfSamples, files: Result<ChromSamples, ScoreError>)
    requires w > 0 && e.key in tfList
    requires files == FileFold(Ok(if e.key in t0 then t0[e.key] else map[]), atacIdx, bigwigs, chrList, e.value, w)
    ensures files.Err? ==> TfStep(Ok(t0), atacIdx, bigwigs, tfList, chrList, e, w) == Err(files.error)
    ensures files.Ok? ==> TfStep(Ok(t0), atacIdx, bigwigs, tfList, chrList, e, w)
                          == Ok(if |files.value| == 0 then t0 - {e.key} else t0[e.key := files.value])
  {
  }

  /** One requested tf: its key is created, filled from its chip files and
      dropped again when no chromosome was added. */
  method ScoreTf(atacIdx: AccessIndex, bigwigs: map<string, Track>, tfList: seq<string>,
                 chrList: seq<string>, e: Entry<Dict<Dict<seq<Peak>>>>, t0: TfSamples, w: int)
    returns (r: Result<TfSamples, ScoreError>)
    requires w > 0 && e.key in tfList
    ensures r == TfStep(Ok(t0), atacIdx, bigwigs, tfList, chrList, e, w)
  {
    var t := t0;
    if e.key !in t {
      t := t[e.key := map[]];
    }
    assert t[e.key] == if e.key in t0 then t0[e.key] else map[];
    var files := ScoreTfFiles(atacIdx, bigwigs, chrList, e.value, t[e.key], w);
    TfStepIs(atacIdx, bigwigs, tfList, chrList, e, w, t0, files);
    if files.Err? {
      return Err(files.error);
    }
    if |files.value| == 0 {
      assert t - {e.key} == t0 - {e.key};
      t := t - {e.key};
    } else {
      assert t[e.key := files.value] == t0[e.key := files.value];
      t := t[e.key := files.value];
    }
    r := Ok(t);
  }

  /** The loop over the tfs of one biosource's chip pickle */
  method ScoreTfs(atacIdx: AccessIndex, bigwigs: map<string, Track>, tfList: seq<string>,
                  chrList: seq<string>, tfs: PeakIndex, t0: TfSamples, w: int)
    returns (r: Result<TfSamples, ScoreError>)
    requires w > 0
    ensures r == TfFold(Ok(t0), atacIdx, bigwigs, tfList, chrList, tfs, w)
  {
    var t := t0;
    var k := 0;
    while k < |tfs|
      invariant 0 <= k <= |tfs|
      invariant TfFold(Ok(t0), atacIdx, bigwigs, tfList, chrList, tfs[..k], w) == Ok(t)
    {
      assert tfs[..k + 1][..k] == tfs[..k];
      if tfs[k].key in tfList {
        r := ScoreTf(atacIdx, bigwigs, tfList, chrList, tfs[k], t, w);
        if r.Err? {
          FailedTfsStay(r, Ok(t0), atacIdx, bigwigs, tfList, chrList, tfs, k + 1, w);
          return;
        }
        t := r.value;
      }
      k := k + 1;
    }
    assert tfs[..k] == tfs;
    r := Ok(t);
  }

  lemma {:induction false} FailedTfsStay(r: Result<TfSamples, ScoreError>, r0: Result<TfSamples, ScoreError>,
                                         atacIdx: AccessIndex, bigwigs: map<string, Track>, tfList: seq<string>,
                                         chrList: seq<string>, tfs: PeakIndex, k: nat, w: int)
    requires w > 0 && k <= |tfs| && r.Err?
    requires TfFold(r0, atacIdx, bigwigs, tfList, chrList, tfs[..k], w) == r
    ensures TfFold(r0, atacIdx, bigwigs, tfList, chrList, tfs, w) == r
    decreases |tfs| - k
  {
    if k == |tfs| {
      assert tfs[..k] == tfs;
    } else {
      assert tfs[..k + 1][..k] == tfs[..k];
      FailedTfsStay(r, r0, atacIdx, bigwigs, tfList, chrList, tfs, k + 1, w);
    }
  }

  /** One requested biosource with both pickles: its key is created, filled
      from its tfs and dropped again when no tf was added. */
  method ScoreBiosource(store: Store, tfList: seq<string>, chrList: seq<string>, b: string,
                        table0: ScoreTable, w: int)
    returns (r: Result<ScoreTable, ScoreError>)
    requires w > 0 && HasData(store, b)
    ensures r == BioStep(Ok(table0), store, tfList, chrList, b, w)
  {
    var table := table0;
    if b !in table {
      table := table[b := map[]];
    }
    var tfs := ScoreTfs(store.atac[b], store.bigwigs, tfList, chrList, store.chip[b], table[b], w);
    if tfs.Err? {
      return Err(tfs.error);
    }
    if |tfs.value| == 0 {
      assert table - {b} == table0 - {b};
      table := table - {b};
    } else {
      assert table[b := tfs.value] == table0[b := tfs.value];
      table := table[b := tfs.value];
    }
    r := Ok(table);
  }

  /** findarea: the loop over the requested biosources */
  method FindArea(store: Store, w: int, bios: seq<string>, tfList: seq<string>, chrList: seq<string>)
    returns (r: Result<ScoreTable, ScoreError>)
    requires w > 0
    ensures r == FindAreaSpec(store, w, bios, tfList, chrList)
  {
    var table: ScoreTable := map[];
    var k := 0;
    while k < |bios|
      invariant 0 <= k <= |bios|
      invariant BioFold(Ok(map[]), store, tfList, chrList, bios[..k], w) == Ok(table)
    {
      assert bios[..k + 1][..k] == bios[..k];
      if HasData(store, bios[k]) {
        r := ScoreBiosource(store, tfList, chrList, bios[k], table, w);
        if r.Err? {
          FailedBiosStay(r, Ok(map[]), store, tfList, chrList, bios, k + 1, w);
          return;
        }
        table := r.value;
      }
      k := k + 1;
    }
    assert bios[..k] == bios;
    r := Ok(table);
  }

  lemma {:induction false} FailedBiosStay(r: Result<ScoreTable, ScoreError>, r0: Result<ScoreTable, ScoreError>,
                                          store: Store, tfList: seq<string>, chrList: seq<string>,
                                          bios: seq<string>, k: nat, w: int)
    requires w > 0 && k <= |bios| && r.Err?
    requires BioFold(r0, store, tfList, chrList, bios[..k], w) == r
    ensures BioFold(r0, store, tfList, chrList, bios, w) == r
    decreases |bios| - k
  {
    if k == |bios| {
      assert bios[..k] == bios;
    } else {
      assert bios[..k + 1][..k] == bios[..k];
      FailedBiosStay(r, r0, store, tfList, chrList, bios, k + 1, w);
    }
  }

  // --------------------------------------------------------------------
  // findarea: properties of the table
  // --------------------------------------------------------------------

  /** A min-max normalised track: well-ordered intervals with values in [0, 1] */
  predicate TrackNormal(t: Track) {
    forall c :: c in t ==> Disjoint(t[c].intervals) && ValuesIn(t[c].intervals, 0.0, 1.0)
  }

  predicate StoreNormal(bigwigs: map<string, Track>) {
    forall p :: p in bigwigs ==> TrackNormal(bigwigs[p])
  }

  /** A sample's window is 2w wide; over normalised tracks both means lie in [0, 1]. */
  predicate SampleOk(s: Sample, w: int, normalised: bool) {
    && s.windowEnd - s.windowStart == 2 * w
    && (normalised ==> 0.0 <= s.chipMean <= 1.0 && 0.0 <= s.atacMean <= 1.0)
  }

  predicate SamplesOk(ss: seq<Sample>, w: int, normalised: bool) {
    forall i :: 0 <= i < |ss| ==> SampleOk(ss[i], w, normalised)
  }

  /** Only requested chromosomes */
  predicate ChromSamplesOk(m: ChromSamples, chrList: seq<string>, w: int, normalised: bool) {
    forall c :: c in m ==> c in chrList && SamplesOk(m[c], w, normalised)
  }

  /** Only requested tfs, none without a chromosome */
  predicate TfSamplesOk(t: TfSamples, tfList: seq<string>, chrList: seq<string>, w: int, normalised: bool) {
    forall tf :: tf in t ==> tf in tfList && |t[tf]| > 0 && ChromSamplesOk(t[tf], chrList, w, normalised)
  }

  /** Only biosources with both pickles, none without a tf */
  predicate TableOk(table: ScoreTable, store: Store, tfList: seq<string>, chrList: seq<string>,
                    w: int, normalised: bool) {
    forall b :: b in table ==> HasData(store, b) && |table[b]| > 0 && TfSamplesOk(table[b], tfList, chrList, w, normalised)
  }

  lemma {:induction false} PeakSamplesOk(chip: Track, atac: Track, chrom: string, peaks: seq<Peak>,
                                         w: int, normalised: bool)
    requires w > 0
    requires normalised ==> TrackNormal(chip) && TrackNormal(atac)
    ensures SamplesOk(PeakSamples(chip, atac, chrom, peaks, w).samples, w, normalised)
    decreases |peaks|
  {
    if peaks != [] {
      var p := peaks[|peaks| - 1];
      PeakSamplesOk(chip, atac, chrom, peaks[..|peaks| - 1], w, normalised);
      if normalised && chrom in chip && chrom in atac && PeakFits(chip, atac, chrom, p, w) {
        MeanWithinUnit(chip[chrom].intervals, WindowStart(p, w), WindowEnd(p, w));
        MeanWithinUnit(atac[chrom].intervals, WindowStart(p, w), WindowEnd(p, w));
      }
    }
  }

  lemma {:induction false} ChromFoldOk(st: FileScan, chip: Track, atacIdx: AccessIndex,
                                       bigwigs: map<string, Track>, chrList: seq<string>,
                                       chroms: Dict<seq<Peak>>, w: int, normalised: bool)
    requires w > 0
    requires normalised ==> TrackNormal(chip) && StoreNormal(bigwigs)
    requires !st.Missing? ==> ChromSamplesOk(st.samples, chrList, w, normalised)
    ensures var res := ChromFold(st, chip, atacIdx, bigwigs, chrList, chroms, w);
      && (!res.Missing? ==> ChromSamplesOk(res.samples, chrList, w, normalised))
      && (res.Missing? ==> res == st || (res.chrom in chrList && res.chrom !in atacIdx))
    decreases |chroms|
  {
    if chroms != [] {
      var e := chroms[|chroms| - 1];
      ChromFoldOk(st, chip, atacIdx, bigwigs, chrList, chroms[..|chroms| - 1], w, normalised);
      var mid := ChromFold(st, chip, atacIdx, bigwigs, chrList, chroms[..|chroms| - 1], w);
      if mid.Scanning? && e.key in chrList && e.key in atacIdx && atacIdx[e.key] in bigwigs {
        PeakSamplesOk(chip, bigwigs[atacIdx[e.key]], e.key, e.value, w, normalised);
      }
    }
  }

  lemma {:induction false} FileFoldOk(r: Result<ChromSamples, ScoreError>, atacIdx: AccessIndex,
                                      bigwigs: map<string, Track>, chrList: seq<string>,
                                      files: Dict<Dict<seq<Peak>>>, w: int, normalised: bool)
    requires w > 0
    requires normalised ==> StoreNormal(bigwigs)
    requires r.Ok? ==> ChromSamplesOk(r.value, chrList, w, normalised)
    ensures var res := FileFold(r, atacIdx, bigwigs, chrList, files, w);
      && (res.Ok? ==> ChromSamplesOk(res.value, chrList, w, normalised))
      && (res.Err? ==> res == r || (res.error.chrom in chrList && res.error.chrom !in atacIdx))
    decreases |files|
  {
    if files != [] {
      var e := files[|files| - 1];
      FileFoldOk(r, atacIdx, bigwigs, chrList, files[..|files| - 1], w, normalised);
      var mid := FileFold(r, atacIdx, bigwigs, chrList, files[..|files| - 1], w);
      if mid.Ok? && e.key in bigwigs {
        ChromFoldOk(Scanning(mid.value), bigwigs[e.key], atacIdx, bigwigs, chrList, e.value, w, normalised);
      }
    }
  }

  lemma TfStepOk(r: Result<TfSamples, ScoreError>, atacIdx: AccessIndex, bigwigs: map<string, Track>,
                 tfList: seq<string>, chrList: seq<string>, e: Entry<Dict<Dict<seq<Peak>>>>, w: int,
                 normalised: bool)
    requires w > 0
    requires normalised ==> StoreNormal(bigwigs)
    requires r.Ok? ==> TfSamplesOk(r.value, tfList, chrList, w, normalised)
    ensures var res := TfStep(r, atacIdx, bigwigs, tfList, chrList, e, w);
      && (res.Ok? ==> TfSamplesOk(res.value, tfList, chrList, w, normalised))
      && (res.Err? ==> res == r || (res.error.chrom in chrList && res.error.chrom !in atacIdx))
  {
    if r.Ok? && e.key in tfList {
      var start: ChromSamples := if e.key in r.value then r.value[e.key] else map[];
      FileFoldOk(Ok(start), atacIdx, bigwigs, chrList, e.value, w, normalised);
      var files := FileFold(Ok(start), atacIdx, bigwigs, chrList, e.value, w);
      if files.Ok? {
        TfPut(r.value, tfList, chrList, w, normalised, e.key, files.value);
      }
    }
  }

  /** Storing a tf's chromosomes, or dropping the tf when it has none, keeps the tf map's shape. */
  lemma TfPut(t: TfSamples, tfList: seq<string>, chrList: seq<string>, w: int, normalised: bool,
              tf: string, m: ChromSamples)
    requires TfSamplesOk(t, tfList, chrList, w, normalised)
    requires tf in tfList && ChromSamplesOk(m, chrList, w, normalised)
    ensures TfSamplesOk(if |m| == 0 then t - {tf} else t[tf := m], tfList, chrList, w, normalised)
  {
    var t' := if |m| == 0 then t - {tf} else t[tf := m];
    forall x | x in t'
      ensures x in tfList && |t'[x]| > 0 && ChromSamplesOk(t'[x], chrList, w, normalised)
    {
      if x != tf { assert t'[x] == t[x]; }
    }
  }

  lemma {:induction false} TfFoldOk(r: Result<TfSamples, ScoreError>, atacIdx: AccessIndex,
                                    bigwigs: map<string, Track>, tfList: seq<string>, chrList: seq<string>,
                                    tfs: PeakIndex, w: int, normalised: bool)
    requires w > 0
    requires normalised ==> StoreNormal(bigwigs)
    requires r.Ok? ==> TfSamplesOk(r.value, tfList, chrList, w, normalised)
    ensures var res := TfFold(r, atacIdx, bigwigs, tfList, chrList, tfs, w);
      && (res.Ok? ==> TfSamplesOk(res.value, tfList, chrList, w, normalised))
      && (res.Err? ==> res == r || (res.error.chrom in chrList && res.error.chrom !in atacIdx))
    decreases |tfs|
  {
    if tfs != [] {
      TfFoldOk(r, atacIdx, bigwigs, tfList, chrList, tfs[..|tfs| - 1], w, normalised);
      var mid := TfFold(r, atacIdx, bigwigs, tfList, chrList, tfs[..|tfs| - 1], w);
      TfStepOk(mid, atacIdx, bigwigs, tfList, chrList, tfs[|tfs| - 1], w, normalised);
    }
  }

  /** A biosource's failure names a chromosome its atac pickle lacks. */
  predicate MissingFrom(store: Store, bios: seq<string>, c: string) {
    exists i :: 0 <= i < |bios| && HasData(store, bios[i]) && c !in store.atac[bios[i]]
  }

  /** The table after one biosource, in terms of what its tfs gave */
  lemma BioStepResult(r: Result<ScoreTable, ScoreError>, store: Store, tfList: seq<string>,
                      chrList: seq<string>, b: string, w: int, t: Result<TfSamples, ScoreError>)
    requires w > 0 && r.Ok? && HasData(store, b)
    requires t == TfFold(Ok(if b in r.value then r.value[b] else map[]), store.atac[b], store.bigwigs,
                         tfList, chrList, store.chip[b], w)
    ensures t.Err? ==> BioStep(r, store, tfList, chrList, b, w) == Err(t.error)
    ensures t.Ok? ==> BioStep(r, store, tfList, chrList, b, w) ==
                        Ok(if |t.value| == 0 then r.value - {b} else r.value[b := t.value])
  {
  }

  /** Storing a biosource's tfs, or dropping the biosource when it has none, keeps the table's shape. */
  lemma TablePut(table: ScoreTable, store: Store, tfList: seq<string>, chrList: seq<string>, w: int,
                 normalised: bool, b: string, t: TfSamples)
    requires TableOk(table, store, tfList, chrList, w, normalised)
    requires HasData(store, b) && TfSamplesOk(t, tfList, chrList, w, normalised)
    ensures TableOk(if |t| == 0 then table - {b} else table[b := t], store, tfList, chrList, w, normalised)
  {
    var table' := if |t| == 0 then table - {b} else table[b := t];
    forall x | x in table'
      ensures HasData(store, x) && |table'[x]| > 0 && TfSamplesOk(table'[x], tfList, chrList, w, normalised)
    {
      if x != b { assert table'[x] == table[x]; }
    }
  }

  lemma BioStepOk(r: Result<ScoreTable, ScoreError>, store: Store, tfList: seq<string>,
                  chrList: seq<string>, b: string, w: int)
    requires w > 0
    requires r.Ok? ==> TableOk(r.value, store, tfList, chrList, w, StoreNormal(store.bigwigs))
    ensures var res := BioStep(r, store, tfList, chrList, b, w);
      && (res.Ok? ==> TableOk(res.value, store, tfList, chrList, w, StoreNormal(store.bigwigs)))
      && (res.Ok? && r.Ok? ==> forall x :: x in res.value ==> x in r.value || x == b)
      && (res.Err? ==> (res == r || (res.error.chrom in chrList && HasData(store, b) && res.error.chrom !in store.atac[b])))
  {
    if r.Ok? && HasData(store, b) {
      var normalised := StoreNormal(store.bigwigs);
      var start: TfSamples := if b in r.value then r.value[b] else map[];
      TfFoldOk(Ok(start), store.atac[b], store.bigwigs, tfList, chrList, store.chip[b], w, normalised);
      var t := TfFold(Ok(start), store.atac[b], store.bigwigs, tfList, chrList, store.chip[b], w);
      BioStepResult(r, store, tfList, chrList, b, w, t);
      if t.Ok? {
        TablePut(r.value, store, tfList, chrList, w, normalised, b, t.value);
      }
    }
  }

  lemma {:induction false} BioFoldOk(r: Result<ScoreTable, ScoreError>, store: Store, tfList: seq<string>,
                                     chrList: seq<string>, bios: seq<string>, w: int)
    requires w > 0
    requires r.Ok? ==> TableOk(r.value, store, tfList, chrList, w, StoreNormal(store.bigwigs))
    ensures var res := BioFold(r, store, tfList, chrList, bios, w);
      && (res.Ok? ==> TableOk(res.value, store, tfList, chrList, w, StoreNormal(store.bigwigs)))
      && (res.Ok? && r.Ok? ==> forall b :: b in res.value ==> b in r.value || b in bios)
      && (res.Err? ==> (res == r || (res.error.chrom in chrList && MissingFrom(store, bios, res.error.chrom))))
    decreases |bios|
  {
    if bios != [] {
      var pre := bios[..|bios| - 1];
      var b := bios[|bios| - 1];
      BioFoldOk(r, store, tfList, chrList, pre, w);
      var mid := BioFold(r, store, tfList, chrList, pre, w);
      BioStepOk(mid, store, tfList, chrList, b, w);
      var res := BioFold(r, store, tfList, chrList, bios, w);
      assert res == BioStep(mid, store, tfList, chrList, b, w);
      if res.Ok? && r.Ok? {
        assert mid.Ok?;
        forall x | x in res.value ensures x in r.value || x in bios {
          assert x in mid.value || x == b;
          assert x in pre ==> x in bios;
        }
      }
      if res.Err? && res != r {
        if res == mid {
          assert MissingFrom(store, pre, res.error.chrom);
          var i :| 0 <= i < |pre| && HasData(store, pre[i]) && res.error.chrom !in store.atac[pre[i]];
          assert bios[i] == pre[i];
        } else {
          assert HasData(store, b) && res.error.chrom !in store.atac[b];
          assert bios[|bios| - 1] == b;
        }
        assert MissingFrom(store, bios, res.error.chrom);
      }
    }
  }

  /** What findarea returns: biosources that were requested and have both
      pickles, tfs that were requested, chromosomes that were requested, no
      empty tf or biosource entry, every window 2w wide, and every mean in
      [0, 1] when all tracks are min-max normalised. */
  lemma FindAreaShape(store: Store, w: int, bios: seq<string>, tfList: seq<string>, chrList: seq<string>)
    requires w > 0
    ensures var r := FindAreaSpec(store, w, bios, tfList, chrList);
      r.Ok? ==> ((forall b :: b in r.value ==> b in bios)
                 && TableOk(r.value, store, tfList, chrList, w, StoreNormal(store.bigwigs)))
  {
    BioFoldOk(Ok(map[]), store, tfList, chrList, bios, w);
  }

  /** findarea fails only on a requested chromosome that the atac pickle of a
      biosource with data does not list. */
  lemma FindAreaErrorCause(store: Store, w: int, bios: seq<string>, tfList: seq<string>, chrList: seq<string>)
    requires w > 0
    ensures var r := FindAreaSpec(store, w, bios, tfList, chrList);
      r.Err? ==> r.error.chrom in chrList && MissingFrom(store, bios, r.error.chrom)
  {
    BioFoldOk(Ok(map[]), store, tfList, chrList, bios, w);
  }

  /** ... so it succeeds whenever every such atac pickle lists every requested chromosome. */
  lemma FindAreaSucceedsWhenCovered(store: Store, w: int, bios: seq<string>, tfList: seq<string>,
                                    chrList: seq<string>)
    requires w > 0
    requires forall i, c :: 0 <= i < |bios| && HasData(store, bios[i]) && c in chrList ==> c in store.atac[bios[i]]
    ensures FindAreaSpec(store, w, bios, tfList, chrList).Ok?
  {
    FindAreaErrorCause(store, w, bios, tfList, chrList);
  }

  /** The sample of peak p on a chromosome both tracks hold */
  function SampleOf(chip: Track, atac: Track, chrom: string, p: Peak, w: int): Sample
    requires w > 0 && chrom in chip && chrom in atac
  {
    var ws := WindowStart(p, w);
    var we := WindowEnd(p, w);
    Sample(ws, we, Mean(Query(chip[chrom].intervals, ws, we), ws, we),
                   Mean(Query(atac[chrom].intervals, ws, we), ws, we))
  }

  /** On a chromosome both tracks hold, with peak k the first whose window a
      track rejects (k = |peaks| when none is), the scan fails exactly when
      some window is rejected and holds one sample for each of the k peaks
      before, in peak order; a repeated peak is scored again, nothing is
      deduplicated. */
  lemma {:induction false} PeakSamplesAt(chip: Track, atac: Track, chrom: string, peaks: seq<Peak>, w: int, k: nat)
    requires w > 0 && chrom in chip && chrom in atac && k <= |peaks|
    requires forall i :: 0 <= i < k ==> PeakFits(chip, atac, chrom, peaks[i], w)
    requires k < |peaks| ==> !PeakFits(chip, atac, chrom, peaks[k], w)
    ensures var r := PeakSamples(chip, atac, chrom, peaks, w);
      && (r.failed <==> k < |peaks|)
      && |r.samples| == k
      && forall i :: 0 <= i < k ==> r.samples[i] == SampleOf(chip, atac, chrom, peaks[i], w)
    decreases |peaks|
  {
    if peaks != [] {
      var n := |peaks|;
      var pre := peaks[..n - 1];
      var last := peaks[n - 1];
      var r := PeakSamples(chip, atac, chrom, peaks, w);
      var r0 := PeakSamples(chip, atac, chrom, pre, w);
      assert forall i :: 0 <= i < |pre| ==> pre[i] == peaks[i];
      if k < n - 1 {
        PeakSamplesAt(chip, atac, chrom, pre, w, k);
        assert r == r0;
      } else {
        PeakSamplesAt(chip, atac, chrom, pre, w, n - 1);
        if k == n {
          assert PeakSample(chip, atac, chrom, last, w) == Some([SampleOf(chip, atac, chrom, last, w)]);
          assert r.samples == r0.samples + [SampleOf(chip, atac, chrom, last, w)];
          forall i | 0 <= i < k ensures r.samples[i] == SampleOf(chip, atac, chrom, peaks[i], w) {
            if i < n - 1 {
              assert r.samples[i] == r0.samples[i];
            }
          }
        } else {
          assert PeakSample(chip, atac, chrom, last, w).None?;
          assert r == PeakScan(r0.samples, true);
        }
      }
    }
  }

  /** A chromosome missing from either track contributes no sample and no failure. */
  lemma {:induction false} PeakSamplesMissing(chip: Track, atac: Track, chrom: string, peaks: seq<Peak>, w: int)
    requires w > 0 && (chrom !in chip || chrom !in atac)
    ensures PeakSamples(chip, atac, chrom, peaks, w) == PeakScan([], false)
    decreases |peaks|
  {
    if peaks != [] {
      PeakSamplesMissing(chip, atac, chrom, peaks[..|peaks| - 1], w);
    }
  }

  /** A peak starting at 100 with its summit 10 further and w = 5 gives the
      window [105, 115); a chip interval [105, 120) of value 2.0 scores 2.0. */
  lemma ScoreExample()
    ensures var chip := map["chr1" := Chrom(1000, [Interval(105, 120, 2.0)])];
            var atac := map["chr1" := Chrom(1000, [])];
            PeakSamples(chip, atac, "chr1", [Peak(100, 200, 10)], 5) == PeakScan([Sample(105, 115, 2.0, 0.0)], false)
  {
    var iv := Interval(105, 120, 2.0);
    var chip := map["chr1" := Chrom(1000, [iv])];
    var atac := map["chr1" := Chrom(1000, [])];
    var ps := [Peak(100, 200, 10)];
    assert ps[..0] == [];
    assert [iv][..0] == [];
    assert Query([iv], 105, 115) == [iv];
    FullCoverMean(iv, 105, 115);
    assert PeakFits(chip, atac, "chr1", ps[0], 5);
    assert PeakSamples(chip, atac, "chr1", ps, 5) == PeakScan(PeakSample(chip, atac, "chr1", ps[0], 5).value, false);
  }

  /** On a chromosome of length 100, a peak at 95 with summit 5 and w = 10 has
      the window [90, 110), which ends past the chromosome: `intervals` raises
      RuntimeError, the scan of the chip file stops, and the chromosome keeps
      the samples it had. */
  lemma ScoreEdgeExample(m: ChromSamples, seen: seq<Sample>)
    requires "chr1" in m && m["chr1"] == seen
    ensures var chip := map["chr1" := Chrom(100, [])];
            var atac := map["chr1" := Chrom(100, [])];
            && PeakSamples(chip, atac, "chr1", [Peak(95, 100, 5)], 10) == PeakScan([], true)
            && ChromStep(Scanning(m), chip, map["chr1" := "a.bw"], map["a.bw" := atac], ["chr1"],
                         Entry("chr1", [Peak(95, 100, 5)]), 10) == Stopped(m)
  {
    var chip := map["chr1" := Chrom(100, [])];
    var atac := map["chr1" := Chrom(100, [])];
    var ps := [Peak(95, 100, 5)];
    assert ps[..0] == [];
    assert !PeakFits(chip, atac, "chr1", ps[0], 10);
    assert PeakSamples(chip, atac, "chr1", ps, 10) == PeakScan([], true);
    assert seen + [] == seen;
    assert m["chr1" := seen + []] == m;
  }
}
