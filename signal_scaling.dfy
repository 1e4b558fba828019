/** The value-level part of signal normalisation
    (bin/scripts/normalize_signal_values.py): the zero-guarded log, the
    chunked copy loops over a bigWig chromosome, min-max scaling, the running
    global extrema, the value-column lookup and the bigWig path test.
    The natural logarithm is a parameter `ln`; the lemmas that use it
    require only `ln(1.0) == 0.0`. */
module SignalScaling {
  import opened Util
  import opened Tracks

  /** The cursor step of the chunk loops */
  const Step: int := 1000000

  // --------------------------------------------------------------------
  // Log scaling
  // --------------------------------------------------------------------

  /** A zero is replaced by 1 before taking the log. */
  function LogValue(ln: real -> real, v: real): real {
    if v == 0.0 then ln(1.0) else ln(v)
  }

  /** Log-scaled intervals: same boundaries, log of each value */
  function MapLog(ln: real -> real, ivs: seq<Interval>): (r: seq<Interval>)
    ensures |r| == |ivs|
  {
    seq(|ivs|, i requires 0 <= i < |ivs| => Interval(ivs[i].start, ivs[i].end, LogValue(ln, ivs[i].value)))
  }

  lemma MapLogAppend(ln: real -> real, a: seq<Interval>, b: seq<Interval>)
    ensures MapLog(ln, a + b) == MapLog(ln, a) + MapLog(ln, b)
  {
  }

  lemma MapLogExtend(ln: real -> real, ivs: seq<Interval>, k: nat, k2: nat)
    requires k <= k2 <= |ivs|
    ensures MapLog(ln, ivs[..k2]) == MapLog(ln, ivs[..k]) + MapLog(ln, ivs[k..k2])
  {
    assert ivs[..k2] == ivs[..k] + ivs[k..k2];
    MapLogAppend(ln, ivs[..k], ivs[k..k2]);
  }

  /** The end of the chunk starting at `i` */
  function ChunkEnd(i: int, len: int): int {
    if i + Step < len then i + Step else len
  }

  /** Where a chunk loop stands: the first k intervals end by the cursor i,
      the others start at or after it, and the next one starts inside the
      chromosome. */
  predicate Cursor(c: Chrom, i: int, k: nat) {
    && 0 <= i && k <= |c.intervals|
    && (forall j :: 0 <= j < k ==> c.intervals[j].end <= i)
    && (forall j :: k <= j < |c.intervals| ==> c.intervals[j].start >= i)
    && (k == |c.intervals| || c.intervals[k].start < c.length)
  }

  /** One chunk [i, ChunkEnd(i, length)) holding intervals k .. k2 - 1 moves
      the cursor past the last of them, or by Step when it holds none. */
  lemma CursorNext(c: Chrom, i: int, k: nat, k2: nat)
    requires WellFormedChrom(c) && Cursor(c, i, k) && i < c.length && k <= k2 <= |c.intervals|
    requires forall j :: k <= j < k2 ==> c.intervals[j].start < ChunkEnd(i, c.length)
    requires forall j :: k2 <= j < |c.intervals| ==> c.intervals[j].start >= ChunkEnd(i, c.length)
    ensures k < k2 ==> c.intervals[k2 - 1].end > i && Cursor(c, c.intervals[k2 - 1].end, k2)
    ensures k == k2 ==> Cursor(c, i + Step, k)
  {
    var ivs := c.intervals;
    if k < k2 {
      var last := ivs[k2 - 1];
      forall j | 0 <= j < k2 ensures ivs[j].end <= last.end {
        if j < k2 - 1 {
          assert ivs[j].end <= last.start;
        }
      }
      forall j | k2 <= j < |ivs| ensures ivs[j].start >= last.end {
        assert k2 - 1 < j;
      }
      if k2 < |ivs| {
        assert ivs[k2].start < ivs[k2].end;
      }
    }
  }

  /** A cursor at or past the chromosome's end has passed every interval. */
  lemma CursorDone(c: Chrom, i: int, k: nat)
    requires Cursor(c, i, k) && i >= c.length
    ensures k == |c.intervals|
  {
  }

  /** The chunk loop of log_scale_file for one chromosome: every stored
      interval is written exactly once, in order, with its own start and end,
      and the log of its value. */
  method LogScaleChrom(ln: real -> real, c: Chrom) returns (out: seq<Interval>)
    requires WellFormedChrom(c)
    ensures out == MapLog(ln, c.intervals)
    ensures SameBounds(out, c.intervals)
  {
    var ivs := c.intervals;
    var len: int := c.length;
    out := [];
    var i := 0;
    ghost var k: nat := 0;
    while i < len
      invariant Cursor(c, i, k)
      invariant out == MapLog(ln, ivs[..k])
      decreases len - i
    {
      i, k, out := LogChunk(ln, c, i, k, out);
    }
    CursorDone(c, i, k);
    assert ivs[..k] == ivs;
  }

  /** One pass of the log_scale_file chunk loop: the chunk starting at the
      cursor is queried and its intervals written log-scaled. */
  method LogChunk(ln: real -> real, c: Chrom, i: int, ghost k: nat, out: seq<Interval>)
    returns (i2: int, ghost k2: nat, out2: seq<Interval>)
    requires WellFormedChrom(c) && Cursor(c, i, k) && i < c.length
    requires out == MapLog(ln, c.intervals[..k])
    ensures i < i2 && Cursor(c, i2, k2)
    ensures out2 == MapLog(ln, c.intervals[..k2])
  {
    var ivs := c.intervals;
    var e := ChunkEnd(i, c.length);
    var intervals := Query(ivs, i, e);
    k2 := QueryRun(ivs, k, i, e);
    CursorNext(c, i, k, k2);
    if intervals != [] {
      MapLogExtend(ln, ivs, k, k2);
      out2 := out + MapLog(ln, intervals);
      i2 := intervals[|intervals| - 1].end;
      assert i2 == ivs[k2 - 1].end;
    } else {
      out2 := out;
      i2 := i + Step;
    }
  }

  // --------------------------------------------------------------------
  // Min-max scaling
  // --------------------------------------------------------------------

  /** (x - min) / (max - min) */
  function ScaleValue(x: real, lo: real, hi: real): real
    requires hi != lo
  {
    (x - lo) / (hi - lo)
  }

  /** A value between the extrema scales into [0, 1]; the extrema map to 0 and 1. */
  lemma ScaleValueInUnit(x: real, lo: real, hi: real)
    requires lo < hi && lo <= x <= hi
    ensures 0.0 <= ScaleValue(x, lo, hi) <= 1.0
    ensures ScaleValue(lo, lo, hi) == 0.0 && ScaleValue(hi, lo, hi) == 1.0
  {
    UnitFraction(x - lo, hi - lo);
    DivSelf(hi - lo);
  }

  lemma NonNegQuotient(a: real, d: real)
    requires a >= 0.0 && d > 0.0
    ensures a / d >= 0.0
  {
  }

  /** Scaling keeps the order of values. */
  lemma ScaleValueMonotone(x: real, y: real, lo: real, hi: real)
    requires lo < hi && x <= y
    ensures ScaleValue(x, lo, hi) <= ScaleValue(y, lo, hi)
  {
    var d := hi - lo;
    assert ScaleValue(y, lo, hi) - ScaleValue(x, lo, hi) == (y - x) / d;
    NonNegQuotient(y - x, d);
  }

  /** The original boundaries with the scaled values of the log track */
  function ScaleFrom(ivs: seq<Interval>, logIvs: seq<Interval>, lo: real, hi: real): (r: seq<Interval>)
    requires |logIvs| == |ivs| && hi != lo
    ensures |r| == |ivs|
  {
    seq(|ivs|, i requires 0 <= i < |ivs| => Interval(ivs[i].start, ivs[i].end, ScaleValue(logIvs[i].value, lo, hi)))
  }

  lemma ScaleFromAppend(a: seq<Interval>, la: seq<Interval>, b: seq<Interval>, lb: seq<Interval>, lo: real, hi: real)
    requires |la| == |a| && |lb| == |b| && hi != lo
    ensures ScaleFrom(a + b, la + lb, lo, hi) == ScaleFrom(a, la, lo, hi) + ScaleFrom(b, lb, lo, hi)
  {
  }

  lemma ScaleFromExtend(ivs: seq<Interval>, logIvs: seq<Interval>, k: nat, k2: nat, lo: real, hi: real)
    requires |logIvs| == |ivs| && k <= k2 <= |ivs| && hi != lo
    ensures ScaleFrom(ivs[..k2], logIvs[..k2], lo, hi)
         == ScaleFrom(ivs[..k], logIvs[..k], lo, hi) + ScaleFrom(ivs[k..k2], logIvs[k..k2], lo, hi)
  {
    assert ivs[..k2] == ivs[..k] + ivs[k..k2];
    assert logIvs[..k2] == logIvs[..k] + logIvs[k..k2];
    ScaleFromAppend(ivs[..k], logIvs[..k], ivs[k..k2], logIvs[k..k2], lo, hi);
  }

  /** The chunk loop of min_max_scale_file for one chromosome, reading the
      boundaries from the original track and the values from its log track. */
  method RescaleChrom(c: Chrom, logIvs: seq<Interval>, lo: real, hi: real) returns (out: seq<Interval>)
    requires WellFormedChrom(c) && SameBounds(c.intervals, logIvs) && hi != lo
    ensures out == ScaleFrom(c.intervals, logIvs, lo, hi)
  {
    var ivs := c.intervals;
    var len: int := c.length;
    out := [];
    var i := 0;
    ghost var k: nat := 0;
    while i < len
      invariant Cursor(c, i, k)
      invariant out == ScaleFrom(ivs[..k], logIvs[..k], lo, hi)
      decreases len - i
    {
      i, k, out := RescaleChunk(c, logIvs, lo, hi, i, k, out);
    }
    CursorDone(c, i, k);
    assert ivs[..k] == ivs;
    assert logIvs[..k] == logIvs;
  }

  /** One pass of the min_max_scale_file chunk loop: boundaries from the
      original track's chunk, values from the log track's same chunk. */
  method RescaleChunk(c: Chrom, logIvs: seq<Interval>, lo: real, hi: real, i: int, ghost k: nat, out: seq<Interval>)
    returns (i2: int, ghost k2: nat, out2: seq<Interval>)
    requires WellFormedChrom(c) && SameBounds(c.intervals, logIvs) && hi != lo
    requires Cursor(c, i, k) && i < c.length
    requires out == ScaleFrom(c.intervals[..k], logIvs[..k], lo, hi)
    ensures i < i2 && Cursor(c, i2, k2)
    ensures out2 == ScaleFrom(c.intervals[..k2], logIvs[..k2], lo, hi)
  {
    var ivs := c.intervals;
    var e := ChunkEnd(i, c.length);
    var intervals := Query(ivs, i, e);
    var logIntervals := Query(logIvs, i, e);
    k2 := QueryRunPair(ivs, logIvs, k, i, e);
    CursorNext(c, i, k, k2);
    if intervals != [] {
      ScaleFromExtend(ivs, logIvs, k, k2, lo, hi);
      out2 := out + ScaleFrom(intervals, logIntervals, lo, hi);
      i2 := intervals[|intervals| - 1].end;
      assert i2 == ivs[k2 - 1].end;
    } else {
      out2 := out;
      i2 := i + Step;
    }
  }

  // --------------------------------------------------------------------
  // Whole tracks
  // --------------------------------------------------------------------

  /** The log-scaled copy of a bigWig: the same chromosomes and lengths */
  function LogTrack(ln: real -> real, t: Track): Track {
    map c | c in t :: Chrom(t[c].length, MapLog(ln, t[c].intervals))
  }

  /** `log` holds every chromosome of `t` with the same interval boundaries. */
  predicate LogOf(t: Track, log: Track) {
    forall c :: c in t ==> c in log && SameBounds(t[c].intervals, log[c].intervals)
  }

  /** The min-max scaled copy of a bigWig, values taken from its log track */
  function RescaledTrack(t: Track, log: Track, lo: real, hi: real): Track
    requires LogOf(t, log) && hi != lo
  {
    map c | c in t :: Chrom(t[c].length, ScaleFrom(t[c].intervals, log[c].intervals, lo, hi))
  }

  /** log_scale_file, bigWig branch: one chunk loop per chromosome */
  method LogScaleTrack(ln: real -> real, t: Track) returns (out: Track)
    requires WellFormed(t)
    ensures out == LogTrack(ln, t)
  {
    out := map[];
    var todo := t.Keys;
    while todo != {}
      invariant todo <= t.Keys
      invariant out.Keys == t.Keys - todo
      invariant forall c :: c in out ==> out[c] == Chrom(t[c].length, MapLog(ln, t[c].intervals))
      decreases |todo|
    {
      var chrom :| chrom in todo;
      var ivs := LogScaleChrom(ln, t[chrom]);
      out := out[chrom := Chrom(t[chrom].length, ivs)];
      todo := todo - {chrom};
    }
  }

  /** min_max_scale_file, bigWig branch: one chunk loop per chromosome */
  method RescaleTrack(t: Track, log: Track, lo: real, hi: real) returns (out: Track)
    requires WellFormed(t) && LogOf(t, log) && hi != lo
    ensures out == RescaledTrack(t, log, lo, hi)
  {
    out := map[];
    var todo := t.Keys;
    while todo != {}
      invariant todo <= t.Keys
      invariant out.Keys == t.Keys - todo
      invariant forall c :: c in out ==> out[c] == Chrom(t[c].length, ScaleFrom(t[c].intervals, log[c].intervals, lo, hi))
      decreases |todo|
    {
      var chrom :| chrom in todo;
      var ivs := RescaleChrom(t[chrom], log[chrom].intervals, lo, hi);
      out := out[chrom := Chrom(t[chrom].length, ivs)];
      todo := todo - {chrom};
    }
  }

  /** A log track written by log scaling fits the rescale loop, and every
      rescaled value is the scaled log of the original value. */
  lemma LogTrackRescale(ln: real -> real, t: Track, lo: real, hi: real)
    requires WellFormed(t) && hi != lo
    ensures LogOf(t, LogTrack(ln, t))
    ensures WellFormed(LogTrack(ln, t))
    ensures var r := RescaledTrack(t, LogTrack(ln, t), lo, hi);
      r.Keys == t.Keys &&
      forall c, i :: c in t && 0 <= i < |t[c].intervals| ==>
        r[c].intervals[i] == Interval(t[c].intervals[i].start, t[c].intervals[i].end,
                                      ScaleValue(LogValue(ln, t[c].intervals[i].value), lo, hi))
  {
  }

  // --------------------------------------------------------------------
  // Global extrema
  // --------------------------------------------------------------------

  /** A real or minus infinity: the seed of the running maximum */
  datatype Ext = NegInf | Fin(r: real)

  predicate Below(x: real, m: Ext) {
    m.Fin? && x <= m.r
  }

  /** The combine step of get_min_max for one file's (min, max) */
  function Combine(acc: (real, Ext), stat: (real, real)): (r: (real, Ext))
    ensures r.0 <= acc.0 && r.0 <= stat.0 && (r.0 == acc.0 || r.0 == stat.0)
    ensures Below(stat.1, r.1) && (acc.1.Fin? ==> Below(acc.1.r, r.1))
    ensures r.1 == acc.1 || r.1 == Fin(stat.1)
  {
    (if stat.0 < acc.0 then stat.0 else acc.0,
     if acc.1.NegInf? || stat.1 > acc.1.r then Fin(stat.1) else acc.1)
  }

  /** The running (min_value, max_value) of normalize_all, seeded (0, -inf) */
  function Extrema(stats: seq<(real, real)>): (real, Ext)
    decreases |stats|
  {
    if stats == [] then (0.0, NegInf)
    else Combine(Extrema(stats[..|stats| - 1]), stats[|stats| - 1])
  }

  /** `m` is what the running minimum holds after visiting `stats`: at
      most the seed 0 and every file minimum, and equal to one of them. */
  predicate IsGlobalMin(m: real, stats: seq<(real, real)>) {
    && m <= 0.0
    && (forall st :: st in stats ==> m <= st.0)
    && (m == 0.0 || exists st :: st in stats && m == st.0)
  }

  /** `m` is what the running maximum holds: -inf exactly when no file was
      visited, otherwise the largest file maximum. */
  predicate IsGlobalMax(m: Ext, stats: seq<(real, real)>) {
    && (m.NegInf? <==> stats == [])
    && (forall st :: st in stats ==> Below(st.1, m))
    && (m.Fin? ==> exists st :: st in stats && m.r == st.1)
  }

  lemma {:induction false} ExtremaBounds(stats: seq<(real, real)>)
    ensures IsGlobalMin(Extrema(stats).0, stats)
    ensures IsGlobalMax(Extrema(stats).1, stats)
    decreases |stats|
  {
    if stats != [] {
      var pre := stats[..|stats| - 1];
      var last := stats[|stats| - 1];
      ExtremaBounds(pre);
      assert stats == pre + [last];
      var p := Extrema(pre);
      var r := Combine(p, last);
      if r.0 != 0.0 && r.0 == p.0 {
        var st :| st in pre && p.0 == st.0;
        assert st in stats;
      }
      if r.1 == p.1 && p.1.Fin? {
        var st :| st in pre && p.1.r == st.1;
        assert st in stats;
      }
    }
  }

  lemma GlobalMinUnique(m1: real, m2: real, a: seq<(real, real)>, b: seq<(real, real)>)
    requires forall st :: st in a <==> st in b
    requires IsGlobalMin(m1, a) && IsGlobalMin(m2, b)
    ensures m1 == m2
  {
    if m1 != 0.0 {
      var st :| st in a && m1 == st.0;
      assert st in b;
    }
    if m2 != 0.0 {
      var st :| st in b && m2 == st.0;
      assert st in a;
    }
  }

  lemma GlobalMaxUnique(m1: Ext, m2: Ext, a: seq<(real, real)>, b: seq<(real, real)>)
    requires forall st :: st in a <==> st in b
    requires IsGlobalMax(m1, a) && IsGlobalMax(m2, b)
    ensures m1 == m2
  {
    if a != [] {
      assert a[0] in b;
      var st1 :| st1 in a && m1.r == st1.1;
      var st2 :| st2 in b && m2.r == st2.1;
      assert st1 in b && st2 in a;
    }
  }

  /** The global extrema depend only on which (min, max) pairs the files
      have, not on the order in which os.listdir lists them. */
  lemma ExtremaOrderFree(a: seq<(real, real)>, b: seq<(real, real)>)
    requires multiset(a) == multiset(b)
    ensures Extrema(a) == Extrema(b)
  {
    forall st ensures st in a <==> st in b {
      assert st in a <==> st in multiset(a);
      assert st in b <==> st in multiset(b);
    }
    ExtremaBounds(a);
    ExtremaBounds(b);
    GlobalMinUnique(Extrema(a).0, Extrema(b).0, a, b);
    GlobalMaxUnique(Extrema(a).1, Extrema(b).1, a, b);
  }

  /** min() and max() of a non-empty value list */
  function SeqMin(xs: seq<real>): (m: real)
    requires |xs| > 0
    ensures (forall i :: 0 <= i < |xs| ==> m <= xs[i]) && m in xs
    decreases |xs|
  {
    if |xs| == 1 then xs[0]
    else
      var rest := SeqMin(xs[1..]);
      assert forall i :: 1 <= i < |xs| ==> xs[i] == xs[1..][i - 1];
      if xs[0] <= rest then xs[0] else rest
  }

  function SeqMax(xs: seq<real>): (m: real)
    requires |xs| > 0
    ensures (forall i :: 0 <= i < |xs| ==> xs[i] <= m) && m in xs
    decreases |xs|
  {
    if |xs| == 1 then xs[0]
    else
      var rest := SeqMax(xs[1..]);
      assert forall i :: 1 <= i < |xs| ==> xs[i] == xs[1..][i - 1];
      if xs[0] >= rest then xs[0] else rest
  }

  // --------------------------------------------------------------------
  // Column and format helpers
  // --------------------------------------------------------------------

  /** get_value_index: the position of SIGNAL_VALUE in the comma-separated
      column list, else of VALUE; None when neither is listed (ValueError). */
  function GetValueIndex(columnNames: string): (r: Option<nat>)
    ensures var parts := Split(columnNames, ',');
      && (r.None? <==> "SIGNAL_VALUE" !in parts && "VALUE" !in parts)
      && (r.Some? && "SIGNAL_VALUE" in parts ==>
            r.value < |parts| && parts[r.value] == "SIGNAL_VALUE" && "SIGNAL_VALUE" !in parts[..r.value])
      && (r.Some? && "SIGNAL_VALUE" !in parts ==>
            r.value < |parts| && parts[r.value] == "VALUE" && "VALUE" !in parts[..r.value])
  {
    var parts := Split(columnNames, ',');
    if "SIGNAL_VALUE" in parts then IndexOf(parts, "SIGNAL_VALUE")
    else IndexOf(parts, "VALUE")
  }

  /** The lower-cased extension, looking through one trailing ".ln" */
  function BigWigCandidateExt(p: string): string {
    var ext := Lower(SplitExt(p).1);
    if ext == ".ln" then Lower(SplitExt(SplitExt(p).0).1) else ext
  }

  /** The path part of is_big_wig: only such paths are handed to the codec. */
  predicate IsBigWigPath(p: string) {
    var ext := BigWigCandidateExt(p);
    ext == ".bw" || ext == ".bigwig"
  }

  /** The final path component contains a character other than '.' */
  predicate NamedPath(p: string) {
    var slash := LastIndexOf(p, '/');
    var nameStart := if slash.Some? then slash.value + 1 else 0;
    nameStart <= |p| && HasNonDot(p, nameStart, |p|)
  }

  lemma {:induction false} LastIndexOfAppend(p: string, q: string, c: char)
    requires q != [] && q[0] == c
    requires !HasChar(q[1..], c)
    ensures LastIndexOf(p + q, c) == Some(|p|)
    decreases |q|
  {
    if |q| == 1 {
      assert (p + q)[..|p + q| - 1] == p;
    } else {
      var s := p + q;
      assert s[..|s| - 1] == p + q[..|q| - 1];
      assert q[|q| - 1] != c by { assert q[1..][|q| - 2] == q[|q| - 1]; }
      var q' := q[..|q| - 1];
      var tail := q'[1..];
      assert !HasChar(tail, c) by {
        forall i | 0 <= i < |tail| ensures tail[i] != c {
          assert tail[i] == q[1..][i];
        }
      }
      LastIndexOfAppend(p, q', c);
    }
  }

  lemma {:induction false} LastIndexOfAppendWithout(p: string, q: string, c: char)
    requires !HasChar(q, c)
    ensures LastIndexOf(p + q, c) == LastIndexOf(p, c)
    decreases |q|
  {
    if q == [] {
      assert p + q == p;
    } else {
      var s := p + q;
      assert s[..|s| - 1] == p + q[..|q| - 1];
      assert q[|q| - 1] != c;
      var q' := q[..|q| - 1];
      assert !HasChar(q', c) by {
        forall i | 0 <= i < |q'| ensures q'[i] != c {
          assert q'[i] == q[i];
        }
      }
      LastIndexOfAppendWithout(p, q[..|q| - 1], c);
    }
  }

  /** Appending ".ln" to a named path makes ".ln" its extension and leaves the
      rest the original path. */
  lemma SplitExtLn(p: string)
    requires NamedPath(p)
    ensures SplitExt(p + ".ln") == (p, ".ln")
  {
    var s := p + ".ln";
    LastIndexOfAppend(p, ".ln", '.');
    LastIndexOfAppendWithout(p, ".ln", '/');
    var slash := LastIndexOf(p, '/');
    var nameStart := if slash.Some? then slash.value + 1 else 0;
    var i :| nameStart <= i < |p| && p[i] != '.';
    assert s[i] == p[i];
    assert HasNonDot(s, nameStart, |p|);
    assert s[..|p|] == p;
    assert s[|p|..] == ".ln";
  }

  /** The log file of a bigWig path is a bigWig path, and the log file of any
      other path is not. */
  lemma IsBigWigPathLn(p: string)
    requires NamedPath(p)
    ensures IsBigWigPath(p + ".ln") <==> (Lower(SplitExt(p).1) == ".bw" || Lower(SplitExt(p).1) == ".bigwig")
  {
    SplitExtLn(p);
    LowerPlain(".ln");
  }

  /** A bigWig extension is recognised in any letter case ... */
  lemma BigWigPathAnyCase(p: string)
    requires NamedPath(p)
    ensures IsBigWigPath(p + ".BigWig")
  {
    PlainExts();
    SplitExtSuffix(p, ".BigWig");
    LowerBigWig();
  }

  lemma LowerBigWig()
    ensures Lower(".BigWig") == ".bigwig"
  {
    var s := ".BigWig";
    var l := Lower(s);
    assert LowerChar('B') == 'b' && LowerChar('W') == 'w';
    assert l[1] == 'b' && l[4] == 'w';
    forall i | 0 <= i < 7 ensures l[i] == ".bigwig"[i] {
      assert l[i] == LowerChar(s[i]);
    }
  }

  /** ... and through one ".ln". */
  lemma BigWigPathLogged(p: string)
    requires NamedPath(p)
    ensures IsBigWigPath(p + ".bw" + ".ln")
  {
    PlainExts();
    SplitExtSuffix(p, ".bw");
    LowerPlain(".bw");
    IsBigWigPathLn(p + ".bw");
  }

  /** Only one ".ln" is looked through. */
  lemma BigWigPathTwiceLogged(p: string)
    requires NamedPath(p)
    ensures !IsBigWigPath(p + ".bw" + ".ln" + ".ln")
  {
    var b := p + ".bw";
    var q := b + ".ln";
    PlainExts();
    SplitExtSuffix(p, ".bw");
    SplitExtSuffix(b, ".ln");
    SplitExtLn(q);
    LowerPlain(".ln");
    assert BigWigCandidateExt(q + ".ln") == ".ln";
  }

  /** A dot followed by neither dots nor slashes */
  predicate PlainExt(ext: string) {
    ext != [] && ext[0] == '.' && !HasChar(ext[1..], '.') && !HasChar(ext, '/')
  }

  lemma PlainExts()
    ensures PlainExt(".bw") && PlainExt(".ln") && PlainExt(".BigWig")
  {
  }

  /** A dot-led suffix without further dots or slashes is the extension of a named path. */
  lemma SplitExtSuffix(p: string, ext: string)
    requires NamedPath(p) && PlainExt(ext)
    ensures SplitExt(p + ext) == (p, ext)
    ensures NamedPath(p + ext)
  {
    var s := p + ext;
    LastIndexOfAppend(p, ext, '.');
    LastIndexOfAppendWithout(p, ext, '/');
    var slash := LastIndexOf(p, '/');
    var nameStart := if slash.Some? then slash.value + 1 else 0;
    var i :| nameStart <= i < |p| && p[i] != '.';
    assert s[i] == p[i];
    assert HasNonDot(s, nameStart, |p|);
    assert HasNonDot(s, nameStart, |s|);
    assert s[..|p|] == p;
    assert s[|p|..] == ext;
  }

  // --------------------------------------------------------------------
  // Flat files
  // --------------------------------------------------------------------

  /** One data line of min_max_scale_file's flat branch: strip, split on
      tabs, replace column idx, append "\n" and re-join with tabs.
      None when the line has no column idx (IndexError). */
  function RescaleLine(line: string, idx: nat, v: string): Option<string> {
    var parts := Split(Strip(line), '\t');
    if idx < |parts| then Some(Join(parts[idx := v] + ["\n"], "\t")) else None
  }

  /** Only column idx changes: split again on tabs, the rewritten line is the
      stripped line's columns with column idx replaced and a final "\n"
      column (the line ends in "\t\n"). */
  lemma RescaleLineColumns(line: string, idx: nat, v: string)
    requires !HasChar(v, '\t')
    requires RescaleLine(line, idx, v).Some?
    ensures Split(RescaleLine(line, idx, v).value, '\t') == Split(Strip(line), '\t')[idx := v] + ["\n"]
  {
    var parts := Split(Strip(line), '\t');
    var cols := parts[idx := v] + ["\n"];
    forall k | 0 <= k < |cols| ensures !HasChar(cols[k], '\t') {
      if k < |parts| && k != idx {
        assert cols[k] == parts[k];
      } else if k == |parts| {
        assert cols[k] == "\n";
        assert "\n"[0] != '\t';
      }
    }
    SplitJoin(cols, '\t');
  }

  /** The text of a value in the mapped column: first line split on tabs */
  function FirstField(lines: seq<string>, idx: nat): Option<string> {
    var first := if lines == [] then "" else lines[0];
    var parts := Split(first, '\t');
    if idx < |parts| then Some(parts[idx]) else None
  }

  // --------------------------------------------------------------------
  // Worked example
  // --------------------------------------------------------------------

  /** Raw values [0, 1, 10]: logs [0, 0, ln 10], extrema (0, ln 10), scaled [0, 0, 1]. */
  lemma RescaleExample(ln: real -> real)
    requires ln(1.0) == 0.0 && ln(10.0) > 0.0
    ensures var logs := [LogValue(ln, 0.0), LogValue(ln, 1.0), LogValue(ln, 10.0)];
      var ext := Extrema([(SeqMin(logs), SeqMax(logs))]);
      && ext == (0.0, Fin(ln(10.0)))
      && [ScaleValue(logs[0], 0.0, ln(10.0)), ScaleValue(logs[1], 0.0, ln(10.0)),
          ScaleValue(logs[2], 0.0, ln(10.0))] == [0.0, 0.0, 1.0]
  {
    var t := ln(10.0);
    var logs := [LogValue(ln, 0.0), LogValue(ln, 1.0), LogValue(ln, 10.0)];
    assert logs == [0.0, 0.0, t];
    assert SeqMin(logs) == 0.0;
    assert SeqMax(logs) == t;
    var stats := [(0.0, t)];
    assert stats[..0] == [];
    assert Extrema(stats) == Combine((0.0, NegInf), (0.0, t));
    DivSelf(t);
  }
}
