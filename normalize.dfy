/** normalize_signal_values.py at file level: the file system is a map from
    paths to contents, and normalize_all runs three passes over the files of
    the linkage table: log scaling (writing `<path>.ln`), the global min/max
    over all log files, and min-max scaling in place (through `<path>.tmp`).
    numpy.log, float(), str() and the bigWig header statistics are
    parameters. */
module Normalize {
  import opened Util
  import opened Tracks
  import opened SignalScaling

  /** What a path holds */
  datatype File =
    | BigWig(track: Track)        // a file the bigWig codec opens
    | Text(lines: seq<string>)    // a text file, each line with its "\n"
    | Numbers(values: seq<real>)  // a one-column file of numbers, one per line

  type Files = map<string, File>

  /** The exceptions that end a step */
  datatype Failure = FileNotFound | IndexError | ValueError | TypeError | DecodeError | ZeroDivision | RuntimeError

  /** The library behaviour the script relies on */
  datatype Env = Env(
    ln: real -> real,                // numpy.log
    toFloat: string -> Option<real>, // float(s); None where it raises (is_float is `.Some?`)
    show: real -> string,            // str(x)
    header: Track -> (real, real))   // header()['minVal'], header()['maxVal']

  /** One row of the linkage table: the file_path and format columns */
  datatype Row = Row(filePath: string, format: string)

  function LnPath(p: string): string { p + ".ln" }

  function TmpPath(p: string): string { p + ".tmp" }

  /** is_big_wig: a bigWig extension (through one ".ln") and a file the codec opens */
  predicate IsBigWig(fs: Files, p: string) {
    IsBigWigPath(p) && p in fs && fs[p].BigWig?
  }

  /** Every bigWig in the file system is well formed (the codec's guarantee). */
  predicate TracksWellFormed(fs: Files) {
    forall p :: p in fs && fs[p].BigWig? ==> WellFormed(fs[p].track)
  }

  /** The lines a file reads as text; a bigWig does not decode. */
  function TextOf(env: Env, f: File): Option<seq<string>> {
    match f
    case Text(lines) => Some(lines)
    case Numbers(vs) => Some(seq(|vs|, i requires 0 <= i < |vs| => env.show(vs[i]) + "\n"))
    case BigWig(_) => None
  }

  // --------------------------------------------------------------------
  // Flat files
  // --------------------------------------------------------------------

  /** The fields numpy.loadtxt sees in a line: the text before the first
      '#', split on whitespace */
  function LineFields(line: string): seq<string> {
    Words(BeforeFirst(line, '#'))
  }

  /** A line loadtxt reads: it is neither blank nor only a comment */
  predicate IsDataLine(line: string) {
    LineFields(line) != []
  }

  /** The lines loadtxt reads, in order */
  function DataRows(lines: seq<string>): seq<string>
    decreases |lines|
  {
    if lines == [] then []
    else DataRows(lines[..|lines| - 1]) + (if IsDataLine(lines[|lines| - 1]) then [lines[|lines| - 1]] else [])
  }

  /** loadtxt reads exactly the data lines, and no line twice. */
  lemma {:induction false} DataRowsFacts(lines: seq<string>)
    ensures |DataRows(lines)| <= |lines|
    ensures forall i :: 0 <= i < |DataRows(lines)| ==> DataRows(lines)[i] in lines && IsDataLine(DataRows(lines)[i])
    ensures forall i :: 0 <= i < |lines| && IsDataLine(lines[i]) ==> lines[i] in DataRows(lines)
    decreases |lines|
  {
    if lines != [] {
      var pre := lines[..|lines| - 1];
      DataRowsFacts(pre);
      assert forall i :: 0 <= i < |pre| ==> pre[i] == lines[i];
    }
  }

  /** Column idx of one line as a number: None on a missing column or a non-number */
  function ColumnValue(toFloat: string -> Option<real>, line: string, idx: nat): Option<real> {
    var fields := LineFields(line);
    if idx < |fields| then toFloat(fields[idx]) else None
  }

  /** numpy.loadtxt(usecols=[idx]): blank and comment lines are skipped; every
      other line must have a number in column idx, or nothing is read */
  function LoadColumn(toFloat: string -> Option<real>, lines: seq<string>, idx: nat): Option<seq<real>>
    decreases |lines|
  {
    if lines == [] then Some([])
    else
      var last := lines[|lines| - 1];
      match LoadColumn(toFloat, lines[..|lines| - 1], idx)
      case None => None
      case Some(vs) =>
        if !IsDataLine(last) then Some(vs)
        else
          match ColumnValue(toFloat, last, idx)
          case None => None
          case Some(v) => Some(vs + [v])
  }

  /** loadtxt succeeds exactly when every line it reads has a number in
      column idx, and then gives one value per such line, in order. */
  lemma {:induction false} LoadColumnValues(toFloat: string -> Option<real>, lines: seq<string>, idx: nat)
    ensures var r := LoadColumn(toFloat, lines, idx);
      && (r.Some? <==> forall i :: 0 <= i < |lines| && IsDataLine(lines[i]) ==> ColumnValue(toFloat, lines[i], idx).Some?)
      && (r.Some? ==> |r.value| == |DataRows(lines)|)
      && (r.Some? ==> forall i :: 0 <= i < |DataRows(lines)| ==> ColumnValue(toFloat, DataRows(lines)[i], idx) == Some(r.value[i]))
    decreases |lines|
  {
    if lines != [] {
      var pre := lines[..|lines| - 1];
      var last := lines[|lines| - 1];
      LoadColumnValues(toFloat, pre, idx);
      assert forall i :: 0 <= i < |pre| ==> pre[i] == lines[i];
      assert DataRows(lines) == DataRows(pre) + (if IsDataLine(last) then [last] else []);
    }
  }

  /** Whether the first line is a header: its field idx (split on tabs, not
      stripped) is not a number. None when the first line has no field idx. */
  function HasHeader(env: Env, lines: seq<string>, idx: nat): Option<bool> {
    match FirstField(lines, idx)
    case None => None
    case Some(field) => Some(env.toFloat(field).None?)
  }

  /** The lines after the header, if there is one */
  function DataLines(lines: seq<string>, header: bool): seq<string> {
    if header && lines != [] then lines[1..] else lines
  }

  /** The flat branch of log_scale_file: the values of the mapped column,
      zeros replaced by 1, logged. A single value is a 0-d numpy array, which
      cannot be iterated (TypeError). */
  function LogScaleFlat(env: Env, lines: seq<string>, format: string): Result<seq<real>, Failure> {
    match GetValueIndex(format)
    case None => Err(ValueError)
    case Some(idx) =>
      match HasHeader(env, lines, idx)
      case None => Err(IndexError)
      case Some(header) =>
        match LoadColumn(env.toFloat, DataLines(lines, header), idx)
        case None => Err(ValueError)
        case Some(vs) =>
          if |vs| == 1 then Err(TypeError)
          else Ok(seq(|vs|, i requires 0 <= i < |vs| => LogValue(env.ln, vs[i])))
  }

  /** What the flat log file holds: one logged value per line loadtxt reads
      after the header, a zero (or a one) becoming ln 1 = 0. */
  lemma LogScaleFlatValues(env: Env, lines: seq<string>, format: string)
    requires env.ln(1.0) == 0.0
    requires LogScaleFlat(env, lines, format).Ok?
    ensures var idx := GetValueIndex(format).value;
      var data := DataRows(DataLines(lines, HasHeader(env, lines, idx).value));
      var logs := LogScaleFlat(env, lines, format).value;
      && |logs| == |data| && |logs| != 1
      && forall i :: 0 <= i < |data| ==>
           && ColumnValue(env.toFloat, data[i], idx).Some?
           && logs[i] == LogValue(env.ln, ColumnValue(env.toFloat, data[i], idx).value)
           && (ColumnValue(env.toFloat, data[i], idx).value == 0.0 ==> logs[i] == 0.0)
  {
    var idx := GetValueIndex(format).value;
    var rest := DataLines(lines, HasHeader(env, lines, idx).value);
    var data := DataRows(rest);
    LoadColumnValues(env.toFloat, rest, idx);
    var vs := LoadColumn(env.toFloat, rest, idx).value;
    var logs := LogScaleFlat(env, lines, format).value;
    assert logs == seq(|vs|, i requires 0 <= i < |vs| => LogValue(env.ln, vs[i]));
    forall i | 0 <= i < |data|
      ensures && ColumnValue(env.toFloat, data[i], idx) == Some(vs[i])
              && logs[i] == LogValue(env.ln, vs[i])
    {
    }
  }

  // --------------------------------------------------------------------
  // log_scale_file
  // --------------------------------------------------------------------

  /** log_scale_file: writes `<path>.ln`, a log-scaled copy of a bigWig or the
      logged value column of a flat file. */
  function LogScaleSpec(env: Env, fs: Files, p: string, format: string): Result<Files, Failure> {
    if p !in fs then Err(FileNotFound)
    else if IsBigWig(fs, p) then Ok(fs[LnPath(p) := BigWig(LogTrack(env.ln, fs[p].track))])
    else
      match TextOf(env, fs[p])
      case None => Err(DecodeError)
      case Some(lines) =>
        match LogScaleFlat(env, lines, format)
        case Err(f) => Err(f)
        case Ok(logs) => Ok(fs[LnPath(p) := Numbers(logs)])
  }

  method LogScaleFile(env: Env, fs: Files, p: string, format: string) returns (r: Result<Files, Failure>)
    requires TracksWellFormed(fs)
    ensures r == LogScaleSpec(env, fs, p, format)
  {
    if p !in fs {
      return Err(FileNotFound);
    }
    if IsBigWig(fs, p) {
      var log := LogScaleTrack(env.ln, fs[p].track);
      return Ok(fs[LnPath(p) := BigWig(log)]);
    }
    var text := TextOf(env, fs[p]);
    if text.None? {
      return Err(DecodeError);
    }
    var logs := LogScaleFlat(env, text.value, format);
    if logs.Err? {
      return Err(logs.error);
    }
    return Ok(fs[LnPath(p) := Numbers(logs.value)]);
  }

  /** Log scaling fails with FileNotFound exactly for a missing file; when it
      succeeds it adds `<path>.ln` and changes nothing else; a bigWig's log
      copy has the same chromosomes and interval boundaries and is again well
      formed. */
  lemma LogScaleSpecFacts(env: Env, fs: Files, p: string, format: string)
    requires TracksWellFormed(fs)
    ensures LogScaleSpec(env, fs, p, format) == Err(FileNotFound) <==> p !in fs
    ensures LogScaleSpec(env, fs, p, format).Ok? ==>
      var fs' := LogScaleSpec(env, fs, p, format).value;
      && fs'.Keys == fs.Keys + {LnPath(p)}
      && (forall q :: q in fs && q != LnPath(p) ==> fs'[q] == fs[q])
      && TracksWellFormed(fs')
      && (IsBigWig(fs, p) ==> fs'[LnPath(p)].BigWig? && LogOf(fs[p].track, fs'[LnPath(p)].track))
      && (!IsBigWig(fs, p) ==> fs'[LnPath(p)].Numbers?)
  {
    if p in fs && IsBigWig(fs, p) {
      LogTrackRescale(env.ln, fs[p].track, 0.0, 1.0);
    }
  }

  // --------------------------------------------------------------------
  // get_min_max
  // --------------------------------------------------------------------

  /** loadtxt(usecols=[0]) of a log file */
  function Column0(env: Env, f: File): Option<seq<real>> {
    match f
    case Numbers(vs) => Some(vs)
    case Text(lines) => LoadColumn(env.toFloat, lines, 0)
    case BigWig(_) => None
  }

  /** The (min, max) of one log file: the header statistics of a bigWig,
      otherwise min() and max() of its value column (ValueError when it is
      empty, TypeError when numpy squeezed it to a 0-d array). */
  function FileStats(env: Env, fs: Files, q: string): (r: Result<(real, real), Failure>)
    ensures r.Ok? && !IsBigWig(fs, q) ==> (q in fs && Column0(env, fs[q]).Some? &&
      var vs := Column0(env, fs[q]).value;
      |vs| >= 2 && (forall i :: 0 <= i < |vs| ==> r.value.0 <= vs[i] <= r.value.1))
  {
    if IsBigWig(fs, q) then Ok(env.header(fs[q].track))
    else if q !in fs then Err(FileNotFound)
    else
      match Column0(env, fs[q])
      case None => Err(ValueError)
      case Some(vs) =>
        if |vs| == 0 then Err(ValueError)
        else if |vs| == 1 then Err(TypeError)
        else Ok((SeqMin(vs), SeqMax(vs)))
  }

  /** get_min_max: folds one file's statistics into the running extrema. */
  function GetMinMax(env: Env, fs: Files, q: string, acc: (real, Ext)): Result<(real, Ext), Failure> {
    match FileStats(env, fs, q)
    case Err(f) => Err(f)
    case Ok(st) => Ok(Combine(acc, st))
  }

  /** The statistics of every log file in pass order, or the first failure */
  function CollectStats(env: Env, fs: Files, logPaths: seq<Option<string>>): Result<seq<(real, real)>, Failure>
    decreases |logPaths|
  {
    if logPaths == [] then Ok([])
    else
      match CollectStats(env, fs, logPaths[..|logPaths| - 1])
      case Err(f) => Err(f)
      case Ok(stats) =>
        match logPaths[|logPaths| - 1]
        case None => Ok(stats)
        case Some(q) =>
          match FileStats(env, fs, q)
          case Err(f) => Err(f)
          case Ok(st) => Ok(stats + [st])
  }

  /** Pass 2 of normalize_all: the global extrema of all log files */
  function ExtremaPassSpec(env: Env, fs: Files, logPaths: seq<Option<string>>): Result<(real, Ext), Failure> {
    match CollectStats(env, fs, logPaths)
    case Err(f) => Err(f)
    case Ok(stats) => Ok(Extrema(stats))
  }

  lemma {:induction false} CollectStatsStays(env: Env, fs: Files, logPaths: seq<Option<string>>, k: nat)
    requires k <= |logPaths| && CollectStats(env, fs, logPaths[..k]).Err?
    ensures CollectStats(env, fs, logPaths) == CollectStats(env, fs, logPaths[..k])
    decreases |logPaths| - k
  {
    if k < |logPaths| {
      assert logPaths[..k + 1][..k] == logPaths[..k];
      CollectStatsStays(env, fs, logPaths, k + 1);
    } else {
      assert logPaths[..k] == logPaths;
    }
  }

  /** Pass 2 for log path k: get_min_max on a visited file, nothing for a skipped one */
  method ExtremaNext(env: Env, fs: Files, logPaths: seq<Option<string>>, k: nat, acc: (real, Ext), ghost stats: seq<(real, real)>)
    returns (next: Result<(real, Ext), Failure>, ghost stats': seq<(real, real)>)
    requires k < |logPaths| && CollectStats(env, fs, logPaths[..k]) == Ok(stats) && acc == Extrema(stats)
    ensures next.Err? ==> CollectStats(env, fs, logPaths[..k + 1]) == Err(next.error)
    ensures next.Ok? ==> CollectStats(env, fs, logPaths[..k + 1]) == Ok(stats') && next.value == Extrema(stats')
  {
    assert logPaths[..k + 1][..k] == logPaths[..k];
    stats' := stats;
    if logPaths[k].Some? {
      next := GetMinMax(env, fs, logPaths[k].value, acc);
      if next.Ok? {
        stats' := stats + [FileStats(env, fs, logPaths[k].value).value];
        assert stats'[..|stats|] == stats;
      }
    } else {
      next := Ok(acc);
    }
  }

  /** Pass 2: the running (min_value, max_value) over the log files */
  method ExtremaPass(env: Env, fs: Files, logPaths: seq<Option<string>>) returns (r: Result<(real, Ext), Failure>)
    ensures r == ExtremaPassSpec(env, fs, logPaths)
  {
    var acc: (real, Ext) := (0.0, NegInf);
    ghost var stats: seq<(real, real)> := [];
    var k := 0;
    while k < |logPaths|
      invariant 0 <= k <= |logPaths|
      invariant CollectStats(env, fs, logPaths[..k]) == Ok(stats)
      invariant acc == Extrema(stats)
    {
      var next;
      next, stats := ExtremaNext(env, fs, logPaths, k, acc, stats);
      if next.Err? {
        CollectStatsStays(env, fs, logPaths, k + 1);
        return Err(next.error);
      }
      acc := next.value;
      k := k + 1;
    }
    assert logPaths[..k] == logPaths;
    return Ok(acc);
  }

  lemma {:induction false} CollectStatsMembers(env: Env, fs: Files, logPaths: seq<Option<string>>)
    requires CollectStats(env, fs, logPaths).Ok?
    ensures forall i :: 0 <= i < |logPaths| && logPaths[i].Some? ==>
      FileStats(env, fs, logPaths[i].value).Ok? &&
      FileStats(env, fs, logPaths[i].value).value in CollectStats(env, fs, logPaths).value
    ensures |CollectStats(env, fs, logPaths).value| <= |logPaths|
    ensures CollectStats(env, fs, logPaths).value == [] <==> forall i :: 0 <= i < |logPaths| ==> logPaths[i].None?
    decreases |logPaths|
  {
    if logPaths != [] {
      var n := |logPaths|;
      var pre := logPaths[..n - 1];
      assert CollectStats(env, fs, pre).Ok?;
      CollectStatsMembers(env, fs, pre);
      var stats := CollectStats(env, fs, pre).value;
      var all := CollectStats(env, fs, logPaths).value;
      assert all == if logPaths[n - 1].None? then stats else stats + [FileStats(env, fs, logPaths[n - 1].value).value];
      forall i | 0 <= i < n && logPaths[i].Some?
        ensures FileStats(env, fs, logPaths[i].value).Ok? && FileStats(env, fs, logPaths[i].value).value in all
      {
        if i < n - 1 { assert logPaths[i] == pre[i]; }
      }
      if forall i :: 0 <= i < n ==> logPaths[i].None? {
        assert forall i :: 0 <= i < |pre| ==> pre[i] == logPaths[i];
      }
    }
  }

  /** Every file visited in pass 2 lies within the global extrema, which are
      finite exactly when some file was visited. */
  lemma ExtremaCoverFiles(env: Env, fs: Files, logPaths: seq<Option<string>>)
    requires ExtremaPassSpec(env, fs, logPaths).Ok?
    ensures var ext := ExtremaPassSpec(env, fs, logPaths).value;
      && ext.0 <= 0.0
      && (ext.1.NegInf? <==> forall i :: 0 <= i < |logPaths| ==> logPaths[i].None?)
      && forall i :: 0 <= i < |logPaths| && logPaths[i].Some? ==>
           var st := FileStats(env, fs, logPaths[i].value);
           st.Ok? && ext.0 <= st.value.0 && Below(st.value.1, ext.1)
  {
    var stats := CollectStats(env, fs, logPaths).value;
    CollectStatsMembers(env, fs, logPaths);
    ExtremaBounds(stats);
  }

  /** The values of a flat log file visited in pass 2 lie within the global extrema. */
  lemma FlatLogWithinExtrema(env: Env, fs: Files, logPaths: seq<Option<string>>, i: nat)
    requires ExtremaPassSpec(env, fs, logPaths).Ok?
    requires i < |logPaths| && logPaths[i].Some? && !IsBigWig(fs, logPaths[i].value)
    ensures var ext := ExtremaPassSpec(env, fs, logPaths).value;
      var q := logPaths[i].value;
      && ext.1.Fin? && q in fs && Column0(env, fs[q]).Some?
      && forall k :: 0 <= k < |Column0(env, fs[q]).value| ==> ext.0 <= Column0(env, fs[q]).value[k] <= ext.1.r
  {
    ExtremaCoverFiles(env, fs, logPaths);
  }

  /** A bigWig log whose header statistics bound its values lies within the global extrema. */
  lemma BigWigLogWithinExtrema(env: Env, fs: Files, logPaths: seq<Option<string>>, i: nat)
    requires ExtremaPassSpec(env, fs, logPaths).Ok?
    requires i < |logPaths| && logPaths[i].Some? && IsBigWig(fs, logPaths[i].value)
    requires var t := fs[logPaths[i].value].track; TrackValuesIn(t, env.header(t).0, env.header(t).1)
    ensures var ext := ExtremaPassSpec(env, fs, logPaths).value;
      ext.1.Fin? && TrackValuesIn(fs[logPaths[i].value].track, ext.0, ext.1.r)
  {
    ExtremaCoverFiles(env, fs, logPaths);
  }

  // --------------------------------------------------------------------
  // min_max_scale_file
  // --------------------------------------------------------------------

  /** The file system after writing `f` to `<p>.tmp` and renaming it to p */
  function Replaced(fs: Files, p: string, f: File): Files {
    (fs - {TmpPath(p)})[p := f]
  }

  /** The data lines of the flat branch, column idx of line k replaced by
      strs[k]; None on a missing column or too few values (IndexError). */
  function RescaledLines(lines: seq<string>, idx: nat, strs: seq<string>): Option<seq<string>>
    decreases |lines|
  {
    if lines == [] then Some([])
    else
      var n := |lines|;
      match RescaledLines(lines[..n - 1], idx, strs)
      case None => None
      case Some(out) =>
        if n - 1 >= |strs| then None
        else
          match RescaleLine(lines[n - 1], idx, strs[n - 1])
          case None => None
          case Some(l) => Some(out + [l])
  }

  /** A blank line between two data lines (such as `chr1\t0\t10\t5` and
      `chr1\t10\t20\t7` with idx 3): loadtxt skips it and reads both values,
      but the rewrite loop splits it too and finds no column idx > 0
      (IndexError, which pass 3 does not catch). */
  lemma BlankLineExample(toFloat: string -> Option<real>, a: string, b: string, idx: nat, strs: seq<string>)
    requires idx > 0 && ColumnValue(toFloat, a, idx).Some? && ColumnValue(toFloat, b, idx).Some?
    ensures LoadColumn(toFloat, [a, "", b], idx) == Some([ColumnValue(toFloat, a, idx).value, ColumnValue(toFloat, b, idx).value])
    ensures RescaledLines([a, "", b], idx, strs).None?
  {
    var lines := [a, "", b];
    var va := ColumnValue(toFloat, a, idx).value;
    var vb := ColumnValue(toFloat, b, idx).value;
    assert !IsDataLine("") by { assert BeforeFirst("", '#') == ""; }
    // loadtxt, one line at a time
    assert LoadColumn(toFloat, [a][..0], idx) == Some([]);
    assert ColumnValue(toFloat, [a][0], idx) == Some(va) && IsDataLine([a][0]);
    assert [] + [va] == [va];
    assert LoadColumn(toFloat, [a], idx) == Some([va]);
    assert [a, ""][..1] == [a] && !IsDataLine([a, ""][1]);
    assert LoadColumn(toFloat, [a, ""], idx) == Some([va]);
    assert lines[..2] == [a, ""] && ColumnValue(toFloat, lines[2], idx) == Some(vb) && IsDataLine(lines[2]);
    assert [va] + [vb] == [va, vb];
    // the rewrite loop fails at the blank line, or for want of values
    RescaledLinesSome(lines, idx, strs);
    assert Strip("") == "";
    assert |Split("", '\t')| == 1;
    if |lines| <= |strs| {
      assert RescaleLine(lines[1], idx, strs[1]).None?;
    }
  }

  /** The rewrite succeeds exactly when every data line has a value and column idx. */
  lemma {:induction false} RescaledLinesSome(lines: seq<string>, idx: nat, strs: seq<string>)
    ensures RescaledLines(lines, idx, strs).Some?
        <==> |lines| <= |strs| && forall i :: 0 <= i < |lines| ==> RescaleLine(lines[i], idx, strs[i]).Some?
    decreases |lines|
  {
    if lines != [] {
      var n := |lines|;
      var pre := lines[..n - 1];
      RescaledLinesSome(pre, idx, strs);
      if RescaledLines(pre, idx, strs).None? {
        if |pre| <= |strs| {
          var i :| 0 <= i < |pre| && RescaleLine(pre[i], idx, strs[i]).None?;
          assert pre[i] == lines[i];
        }
      } else if n - 1 < |strs| && RescaleLine(lines[n - 1], idx, strs[n - 1]).Some? {
        forall i | 0 <= i < n ensures RescaleLine(lines[i], idx, strs[i]).Some? {
          if i < n - 1 {
            assert pre[i] == lines[i];
          }
        }
      }
    }
  }

  /** A successful rewrite turns line i into RescaleLine of line i with value i. */
  lemma {:induction false} RescaledLinesValues(lines: seq<string>, idx: nat, strs: seq<string>)
    requires RescaledLines(lines, idx, strs).Some?
    ensures var r := RescaledLines(lines, idx, strs).value;
      |r| == |lines| && forall i :: 0 <= i < |lines| ==> Some(r[i]) == RescaleLine(lines[i], idx, strs[i])
    decreases |lines|
  {
    if lines != [] {
      var n := |lines|;
      var pre := lines[..n - 1];
      RescaledLinesValues(pre, idx, strs);
      var out := RescaledLines(pre, idx, strs).value;
      var r := RescaledLines(lines, idx, strs).value;
      assert r == out + [RescaleLine(lines[n - 1], idx, strs[n - 1]).value];
      forall i | 0 <= i < n ensures Some(r[i]) == RescaleLine(lines[i], idx, strs[i]) {
        if i < n - 1 {
          assert r[i] == out[i] && pre[i] == lines[i];
        }
      }
    }
  }

  /** The line loop of the flat branch, with its running value counter */
  method RescaleLines(lines: seq<string>, idx: nat, strs: seq<string>) returns (r: Option<seq<string>>)
    ensures r == RescaledLines(lines, idx, strs)
  {
    var out: seq<string> := [];
    var cnt := 0;
    while cnt < |lines|
      invariant 0 <= cnt <= |lines|
      invariant RescaledLines(lines[..cnt], idx, strs) == Some(out)
    {
      assert lines[..cnt + 1][..cnt] == lines[..cnt];
      if cnt >= |strs| {
        RescaledLinesStays(lines, idx, strs, cnt + 1);
        return None;
      }
      var line := RescaleLine(lines[cnt], idx, strs[cnt]);
      if line.None? {
        RescaledLinesStays(lines, idx, strs, cnt + 1);
        return None;
      }
      out := out + [line.value];
      cnt := cnt + 1;
    }
    assert lines[..cnt] == lines;
    return Some(out);
  }

  lemma {:induction false} RescaledLinesStays(lines: seq<string>, idx: nat, strs: seq<string>, k: nat)
    requires k <= |lines| && RescaledLines(lines[..k], idx, strs).None?
    ensures RescaledLines(lines, idx, strs).None?
    decreases |lines| - k
  {
    if k < |lines| {
      assert lines[..k + 1][..k] == lines[..k];
      RescaledLinesStays(lines, idx, strs, k + 1);
    } else {
      assert lines[..k] == lines;
    }
  }

  /** The scaled values as written, str((x - min) / (max - min)) */
  function ScaledStrings(env: Env, vs: seq<real>, lo: real, hi: real): seq<string>
    requires hi != lo
  {
    seq(|vs|, i requires 0 <= i < |vs| => env.show(ScaleValue(vs[i], lo, hi)))
  }

  /** The bigWig branch of min_max_scale_file: p's intervals with the scaled
      values of its log track */
  function ScaledBigWig(t: Track, log: Track, lo: real, hi: real): Result<File, Failure> {
    if !LogOf(t, log) then Err(RuntimeError)
    else if hi == lo then Err(ZeroDivision)
    else Ok(BigWig(RescaledTrack(t, log, lo, hi)))
  }

  /** The first line kept as a header, stripped */
  function HeaderLine(lines: seq<string>, header: bool): seq<string> {
    if header then [Strip(if lines == [] then "" else lines[0]) + "\n"] else []
  }

  /** The flat branch of min_max_scale_file: p's text with column idx of every
      data line replaced by the scaled log values in order */
  function ScaledFlat(env: Env, fs: Files, p: string, q: string, lo: real, hi: real, format: string): (r: Result<File, Failure>)
    ensures r.Ok? ==> p in fs
  {
    if q !in fs then Err(FileNotFound)
    else
      match Column0(env, fs[q])
      case None => Err(ValueError)
      case Some(vs) =>
        if |vs| == 1 then Err(TypeError)
        else if hi == lo then Err(ZeroDivision)
        else
          match GetValueIndex(format)
          case None => Err(ValueError)
          case Some(idx) =>
            if p !in fs then Err(FileNotFound)
            else
              match TextOf(env, fs[p])
              case None => Err(DecodeError)
              case Some(lines) => RewriteText(env, lines, idx, ScaledStrings(env, vs, lo, hi))
  }

  /** The text written to `<p>.tmp`: the header line if any, then every data
      line with column idx replaced by the next string */
  function RewriteText(env: Env, lines: seq<string>, idx: nat, strs: seq<string>): Result<File, Failure> {
    match HasHeader(env, lines, idx)
    case None => Err(IndexError)
    case Some(header) =>
      match RescaledLines(DataLines(lines, header), idx, strs)
      case None => Err(IndexError)
      case Some(out) => Ok(Text(HeaderLine(lines, header) + out))
  }

  /** min_max_scale_file: rewrites p, through `<p>.tmp`, with its log values
      min-max scaled. */
  function MinMaxScaleSpec(env: Env, fs: Files, p: string, q: string, lo: real, hi: real, format: string): Result<Files, Failure> {
    var content := if IsBigWig(fs, p) && IsBigWig(fs, q) then ScaledBigWig(fs[p].track, fs[q].track, lo, hi)
                   else ScaledFlat(env, fs, p, q, lo, hi, format);
    match content
    case Err(f) => Err(f)
    case Ok(f) => Ok(Replaced(fs, p, f))
  }

  /** The chunk loops of the bigWig branch */
  method ScaleBigWigFile(t: Track, log: Track, lo: real, hi: real) returns (r: Result<File, Failure>)
    requires WellFormed(t)
    ensures r == ScaledBigWig(t, log, lo, hi)
  {
    if !LogOf(t, log) {
      return Err(RuntimeError);
    }
    if hi == lo {
      return Err(ZeroDivision);
    }
    var scaled := RescaleTrack(t, log, lo, hi);
    return Ok(BigWig(scaled));
  }

  /** The line loop of the flat branch */
  method ScaleFlatFile(env: Env, fs: Files, p: string, q: string, lo: real, hi: real, format: string)
    returns (r: Result<File, Failure>)
    ensures r == ScaledFlat(env, fs, p, q, lo, hi, format)
  {
    if q !in fs {
      return Err(FileNotFound);
    }
    var logs := Column0(env, fs[q]);
    if logs.None? {
      return Err(ValueError);
    }
    if |logs.value| == 1 {
      return Err(TypeError);
    }
    if hi == lo {
      return Err(ZeroDivision);
    }
    var idx := GetValueIndex(format);
    if idx.None? {
      return Err(ValueError);
    }
    if p !in fs {
      return Err(FileNotFound);
    }
    var text := TextOf(env, fs[p]);
    if text.None? {
      return Err(DecodeError);
    }
    var lines := text.value;
    var header := HasHeader(env, lines, idx.value);
    if header.None? {
      return Err(IndexError);
    }
    var out := RescaleLines(DataLines(lines, header.value), idx.value, ScaledStrings(env, logs.value, lo, hi));
    if out.None? {
      return Err(IndexError);
    }
    return Ok(Text(HeaderLine(lines, header.value) + out.value));
  }

  method MinMaxScaleFile(env: Env, fs: Files, p: string, q: string, lo: real, hi: real, format: string)
    returns (r: Result<Files, Failure>)
    requires TracksWellFormed(fs)
    ensures r == MinMaxScaleSpec(env, fs, p, q, lo, hi, format)
  {
    var content: Result<File, Failure>;
    if IsBigWig(fs, p) && IsBigWig(fs, q) {
      content := ScaleBigWigFile(fs[p].track, fs[q].track, lo, hi);
    } else {
      content := ScaleFlatFile(env, fs, p, q, lo, hi, format);
    }
    if content.Err? {
      return Err(content.error);
    }
    return Ok(Replaced(fs, p, content.value));
  }

  /** fs' is fs with p replaced and `<p>.tmp` gone, everything else unchanged */
  predicate ReplacedOnly(fs: Files, fs': Files, p: string) {
    && p in fs && fs'.Keys == fs.Keys - {TmpPath(p)}
    && forall x :: x in fs && x != p && x != TmpPath(p) ==> fs'[x] == fs[x]
  }

  /** Replacing p by a file that is not an ill-formed bigWig keeps the frame
      and the bigWigs well formed. */
  lemma ReplacedFrame(fs: Files, p: string, f: File)
    requires p in fs && TracksWellFormed(fs)
    requires f.BigWig? ==> WellFormed(f.track)
    ensures ReplacedOnly(fs, Replaced(fs, p, f), p)
    ensures TracksWellFormed(Replaced(fs, p, f))
  {
    assert p != TmpPath(p) by { assert |TmpPath(p)| == |p| + 4; }
  }

  /** Min-max scaling replaces p, removes `<p>.tmp`, changes nothing else and
      keeps the bigWigs well formed. */
  lemma MinMaxScaleFrame(env: Env, fs: Files, p: string, q: string, lo: real, hi: real, format: string)
    requires TracksWellFormed(fs)
    requires MinMaxScaleSpec(env, fs, p, q, lo, hi, format).Ok?
    ensures ReplacedOnly(fs, MinMaxScaleSpec(env, fs, p, q, lo, hi, format).value, p)
    ensures TracksWellFormed(MinMaxScaleSpec(env, fs, p, q, lo, hi, format).value)
  {
    if IsBigWig(fs, p) && IsBigWig(fs, q) {
      var content := ScaledBigWig(fs[p].track, fs[q].track, lo, hi);
      assert content.Ok?;
      var f := content.value;
      assert MinMaxScaleSpec(env, fs, p, q, lo, hi, format) == Ok(Replaced(fs, p, f));
      assert WellFormed(fs[p].track) && LogOf(fs[p].track, fs[q].track) && hi != lo;
      RescaledWellFormed(fs[p].track, fs[q].track, lo, hi);
      ReplacedFrame(fs, p, f);
    } else {
      var content := ScaledFlat(env, fs, p, q, lo, hi, format);
      assert content.Ok?;
      var f := content.value;
      assert MinMaxScaleSpec(env, fs, p, q, lo, hi, format) == Ok(Replaced(fs, p, f));
      assert f.Text?;
      ReplacedFrame(fs, p, f);
    }
  }

  lemma RescaledWellFormed(t: Track, log: Track, lo: real, hi: real)
    requires WellFormed(t) && LogOf(t, log) && hi != lo
    ensures WellFormed(RescaledTrack(t, log, lo, hi))
  {
    var r := RescaledTrack(t, log, lo, hi);
    forall c | c in r ensures WellFormedChrom(r[c]) {
      assert SameBounds(r[c].intervals, t[c].intervals);
    }
  }

  /** With log values inside [min, max] and min < max, every value of a
      rescaled bigWig lies in [0, 1]. */
  lemma ScaledBigWigInUnit(t: Track, log: Track, lo: real, hi: real)
    requires lo < hi && TrackValuesIn(log, lo, hi)
    requires ScaledBigWig(t, log, lo, hi).Ok?
    ensures TrackValuesIn(ScaledBigWig(t, log, lo, hi).value.track, 0.0, 1.0)
  {
    var s := ScaledBigWig(t, log, lo, hi).value.track;
    forall c, i | c in s && 0 <= i < |s[c].intervals| ensures 0.0 <= s[c].intervals[i].value <= 1.0 {
      ScaleValueInUnit(log[c].intervals[i].value, lo, hi);
    }
  }

  /** Every string written into a flat file shows a value in [0, 1] when the
      log values lie within the extrema. */
  lemma ScaledStringsInUnit(env: Env, vs: seq<real>, lo: real, hi: real)
    requires lo < hi && forall k :: 0 <= k < |vs| ==> lo <= vs[k] <= hi
    ensures |ScaledStrings(env, vs, lo, hi)| == |vs|
    ensures forall k :: 0 <= k < |vs| ==>
      ScaledStrings(env, vs, lo, hi)[k] == env.show(ScaleValue(vs[k], lo, hi)) && 0.0 <= ScaleValue(vs[k], lo, hi) <= 1.0
  {
    forall k | 0 <= k < |vs| ensures 0.0 <= ScaleValue(vs[k], lo, hi) <= 1.0 {
      ScaleValueInUnit(vs[k], lo, hi);
    }
  }

  /** `out` is `line` with column idx replaced by v: split on tabs it gives the
      stripped line's columns, column idx being v, and a final "\n" column. */
  predicate ColumnReplaced(line: string, idx: nat, v: string, out: string) {
    var cols := Split(Strip(line), '\t');
    idx < |cols| && Split(out, '\t') == cols[idx := v] + ["\n"]
  }

  /** The flat branch's output text: the header line, stripped, if there is
      one, then data line k with column idx replaced by the k-th string */
  predicate RewrittenText(lines: seq<string>, header: bool, idx: nat, strs: seq<string>, out: seq<string>) {
    var data := DataLines(lines, header);
    var h := if header then 1 else 0;
    && |out| == h + |data| && |data| <= |strs|
    && (header ==> out[0] == Strip(if lines == [] then "" else lines[0]) + "\n")
    && forall k :: 0 <= k < |data| ==> ColumnReplaced(data[k], idx, strs[k], out[h + k])
  }

  /** In the flat branch, data line k gets the k-th value string in column
      idx and keeps every other column; a header line is kept, stripped. */
  lemma RewriteTextColumns(env: Env, lines: seq<string>, idx: nat, strs: seq<string>)
    requires forall k :: 0 <= k < |strs| ==> !HasChar(strs[k], '\t')
    requires RewriteText(env, lines, idx, strs).Ok?
    ensures HasHeader(env, lines, idx).Some?
    ensures RewrittenText(lines, HasHeader(env, lines, idx).value, idx, strs, RewriteText(env, lines, idx, strs).value.lines)
  {
    RewriteTextParts(env, lines, idx, strs);
    var header := HasHeader(env, lines, idx).value;
    var data := DataLines(lines, header);
    var rescaled := RescaledLines(data, idx, strs).value;
    RescaledLinesColumns(data, idx, strs);
    HeaderThenColumns(lines, header, idx, strs, rescaled);
  }

  /** The text written is the header line, if any, then the rewritten data lines. */
  lemma RewriteTextParts(env: Env, lines: seq<string>, idx: nat, strs: seq<string>)
    requires RewriteText(env, lines, idx, strs).Ok?
    ensures HasHeader(env, lines, idx).Some?
    ensures var header := HasHeader(env, lines, idx).value;
      var rescaled := RescaledLines(DataLines(lines, header), idx, strs);
      && rescaled.Some?
      && RewriteText(env, lines, idx, strs).value.lines == HeaderLine(lines, header) + rescaled.value
  {
  }

  /** Putting the header line in front shifts each rewritten data line by one. */
  lemma HeaderThenColumns(lines: seq<string>, header: bool, idx: nat, strs: seq<string>, rescaled: seq<string>)
    requires |rescaled| == |DataLines(lines, header)| <= |strs|
    requires forall k :: 0 <= k < |rescaled| ==>
      ColumnReplaced(DataLines(lines, header)[k], idx, strs[k], rescaled[k])
    ensures RewrittenText(lines, header, idx, strs, HeaderLine(lines, header) + rescaled)
  {
    var out := HeaderLine(lines, header) + rescaled;
    var data := DataLines(lines, header);
    var h := if header then 1 else 0;
    assert |HeaderLine(lines, header)| == h;
    forall k | 0 <= k < |data| ensures ColumnReplaced(data[k], idx, strs[k], out[h + k]) {
      assert out[h + k] == rescaled[k];
    }
    if header {
      assert out[0] == HeaderLine(lines, header)[0];
    }
  }

  lemma RescaledLinesColumns(lines: seq<string>, idx: nat, strs: seq<string>)
    requires forall k :: 0 <= k < |strs| ==> !HasChar(strs[k], '\t')
    requires RescaledLines(lines, idx, strs).Some?
    ensures var out := RescaledLines(lines, idx, strs).value;
      && |out| == |lines| <= |strs|
      && forall k :: 0 <= k < |lines| ==> ColumnReplaced(lines[k], idx, strs[k], out[k])
  {
    RescaledLinesSome(lines, idx, strs);
    RescaledLinesValues(lines, idx, strs);
    var out := RescaledLines(lines, idx, strs).value;
    forall k | 0 <= k < |lines| ensures ColumnReplaced(lines[k], idx, strs[k], out[k]) {
      RescaleLineColumns(lines[k], idx, strs[k]);
    }
  }

  // --------------------------------------------------------------------
  // normalize_all
  // --------------------------------------------------------------------

  /** Pass 1 for one row: reuse an existing `<path>.ln`, else log-scale; a
      missing file or any failure excludes the row (None). */
  function LogStep(env: Env, fs: Files, row: Row): (Files, Option<string>) {
    var p := row.filePath;
    if p !in fs then (fs, None)
    else if LnPath(p) in fs then (fs, Some(LnPath(p)))
    else
      match LogScaleSpec(env, fs, p, row.format)
      case Err(_) => (fs, None)
      case Ok(fs') => (fs', Some(LnPath(p)))
  }

  /** Pass 1: the file system and the log path of every row (None: excluded) */
  function LogPassSpec(env: Env, fs: Files, rows: seq<Row>): (r: (Files, seq<Option<string>>))
    ensures |r.1| == |rows|
    decreases |rows|
  {
    if rows == [] then (fs, [])
    else
      var acc := LogPassSpec(env, fs, rows[..|rows| - 1]);
      var step := LogStep(env, acc.0, rows[|rows| - 1]);
      (step.0, acc.1 + [step.1])
  }

  /** The positions of the excluded rows, in increasing order */
  function NoneIndices(xs: seq<Option<string>>): seq<nat>
    decreases |xs|
  {
    if xs == [] then []
    else NoneIndices(xs[..|xs| - 1]) + (if xs[|xs| - 1].None? then [|xs| - 1] else [])
  }

  /** The excluded positions are exactly the failed rows, increasing. */
  lemma {:induction false} NoneIndicesFacts(xs: seq<Option<string>>)
    ensures forall j :: j in NoneIndices(xs) <==> 0 <= j < |xs| && xs[j].None?
    ensures forall a, b :: 0 <= a < b < |NoneIndices(xs)| ==> NoneIndices(xs)[a] < NoneIndices(xs)[b]
    decreases |xs|
  {
    if xs != [] {
      var pre := xs[..|xs| - 1];
      NoneIndicesFacts(pre);
      assert forall j :: 0 <= j < |pre| ==> pre[j] == xs[j];
      var ns := NoneIndices(pre);
      assert forall a :: 0 <= a < |ns| ==> ns[a] < |pre| by {
        forall a | 0 <= a < |ns| ensures ns[a] < |pre| { assert ns[a] in ns; }
      }
    }
  }

  /** Each row's log path is None or the row's own `<path>.ln`, present in fs. */
  predicate OwnLogPaths(fs: Files, rows: seq<Row>, logPaths: seq<Option<string>>) {
    && |logPaths| == |rows|
    && forall i :: 0 <= i < |rows| && logPaths[i].Some? ==>
         logPaths[i].value == LnPath(rows[i].filePath) && logPaths[i].value in fs
  }

  /** Pass 1 for one row keeps the bigWigs well formed and every path, and
      names only the row's own log file, which then exists. */
  lemma LogStepFacts(env: Env, fs: Files, row: Row)
    requires TracksWellFormed(fs)
    ensures var step := LogStep(env, fs, row);
      && TracksWellFormed(step.0)
      && fs.Keys <= step.0.Keys
      && (step.1.Some? ==> step.1.value == LnPath(row.filePath) && step.1.value in step.0)
  {
    var p := row.filePath;
    if p in fs && LnPath(p) !in fs {
      LogScaleSpecFacts(env, fs, p, row.format);
    }
  }

  /** Appending one row whose log path is its own, over a file system that
      only grows, keeps every earlier row's log path. */
  lemma OwnLogPathsSnoc(fs: Files, fs': Files, rows: seq<Row>, logPaths: seq<Option<string>>, lp: Option<string>)
    requires rows != [] && fs.Keys <= fs'.Keys
    requires OwnLogPaths(fs, rows[..|rows| - 1], logPaths)
    requires lp.Some? ==> lp.value == LnPath(rows[|rows| - 1].filePath) && lp.value in fs'
    ensures OwnLogPaths(fs', rows, logPaths + [lp])
  {
    var pre := rows[..|rows| - 1];
    var all := logPaths + [lp];
    forall i | 0 <= i < |rows| && all[i].Some?
      ensures all[i].value == LnPath(rows[i].filePath) && all[i].value in fs'
    {
      if i < |pre| {
        assert all[i] == logPaths[i] && rows[i] == pre[i];
      }
    }
  }

  /** Pass 1 keeps the bigWigs well formed, keeps every path, and gives each
      row either None or its own `<path>.ln`, which then exists. */
  lemma {:induction false} LogPassFacts(env: Env, fs: Files, rows: seq<Row>)
    requires TracksWellFormed(fs)
    ensures var r := LogPassSpec(env, fs, rows);
      && TracksWellFormed(r.0)
      && fs.Keys <= r.0.Keys
      && OwnLogPaths(r.0, rows, r.1)
    decreases |rows|
  {
    if rows != [] {
      var pre := rows[..|rows| - 1];
      LogPassFacts(env, fs, pre);
      var acc := LogPassSpec(env, fs, pre);
      var row := rows[|rows| - 1];
      LogStepFacts(env, acc.0, row);
      var step := LogStep(env, acc.0, row);
      OwnLogPathsSnoc(acc.0, step.0, rows, acc.1, step.1);
    }
  }

  /** Pass 1: log path per row and the excluded row numbers */
  method LogPass(env: Env, fs0: Files, rows: seq<Row>) returns (fs: Files, logPaths: seq<Option<string>>, excluded: seq<nat>)
    requires TracksWellFormed(fs0)
    ensures (fs, logPaths) == LogPassSpec(env, fs0, rows)
    ensures excluded == NoneIndices(logPaths)
  {
    fs := fs0;
    logPaths := [];
    excluded := [];
    var i := 0;
    while i < |rows|
      invariant 0 <= i <= |rows| && |logPaths| == i
      invariant (fs, logPaths) == LogPassSpec(env, fs0, rows[..i])
      invariant excluded == NoneIndices(logPaths)
      invariant TracksWellFormed(fs)
    {
      assert rows[..i + 1][..i] == rows[..i];
      var p := rows[i].filePath;
      var logPath: Option<string> := None;
      if p in fs {
        if LnPath(p) in fs {
          logPath := Some(LnPath(p));
        } else {
          var r := LogScaleFile(env, fs, p, rows[i].format);
          if r.Ok? {
            LogScaleSpecFacts(env, fs, p, rows[i].format);
            fs := r.value;
            logPath := Some(LnPath(p));
          } else {
            excluded := excluded + [i];
          }
        }
      } else {
        excluded := excluded + [i];
      }
      assert (logPaths + [logPath])[..i] == logPaths;
      logPaths := logPaths + [logPath];
      i := i + 1;
    }
    assert rows[..i] == rows;
  }

  /** What a pass of normalize_all leaves behind: the file system reached,
      the excluded row numbers, and the failure that ended the run, if any */
  datatype Progress = Progress(fs: Files, excluded: seq<nat>, failure: Option<Failure>)

  /** min_max_scale_file for row j of pass 3, as a function of the file
      system it starts from, with the global extrema fixed */
  function RowScaling(env: Env, rows: seq<Row>, logPaths: seq<Option<string>>, lo: real, hi: real)
    : (Files, nat) -> Result<Files, Failure>
  {
    (f: Files, j: nat) =>
      if j < |rows| && j < |logPaths| && logPaths[j].Some?
      then MinMaxScaleSpec(env, f, rows[j].filePath, logPaths[j].value, lo, hi, rows[j].format)
      else Err(TypeError)
  }

  /** Pass 3 for row j, with `scale` for min_max_scale_file: skip an excluded
      row, else scale it; a RuntimeError excludes it, any other failure ends
      the run with the file system as it was before the row. */
  function ScaleStep(scale: (Files, nat) -> Result<Files, Failure>, acc: Progress, j: nat, logPath: Option<string>)
    : (r: Progress)
    requires acc.failure.None?
    ensures r.failure.Some? ==> r.fs == acc.fs && r.excluded == acc.excluded
    ensures r.excluded == acc.excluded || (j !in acc.excluded && r.excluded == acc.excluded + [j] && r.fs == acc.fs)
    ensures r.fs == acc.fs || (j !in acc.excluded && logPath.Some? && scale(acc.fs, j) == Ok(r.fs))
  {
    if j in acc.excluded then acc
    else
      match logPath
      case None => acc.(failure := Some(TypeError))
      case Some(_) =>
        match scale(acc.fs, j)
        case Err(RuntimeError) => acc.(excluded := acc.excluded + [j])
        case Err(f) => acc.(failure := Some(f))
        case Ok(fs') => acc.(fs := fs')
  }

  /** Pass 3 over rows 0..k-1; a run already ended stays as it is */
  function ScalePassSpec(scale: (Files, nat) -> Result<Files, Failure>, fs: Files, excluded: seq<nat>,
                         logPaths: seq<Option<string>>, k: nat): Progress
    requires k <= |logPaths|
    decreases k
  {
    if k == 0 then Progress(fs, excluded, None)
    else
      var acc := ScalePassSpec(scale, fs, excluded, logPaths, k - 1);
      if acc.failure.Some? then acc
      else ScaleStep(scale, acc, k - 1, logPaths[k - 1])
  }

  /** An uncaught failure in pass 3 ends the pass with the state it left. */
  lemma {:induction false} ScalePassStays(scale: (Files, nat) -> Result<Files, Failure>, fs: Files, excluded: seq<nat>,
                                          logPaths: seq<Option<string>>, k: nat, m: nat)
    requires k <= m <= |logPaths|
    requires ScalePassSpec(scale, fs, excluded, logPaths, k).failure.Some?
    ensures ScalePassSpec(scale, fs, excluded, logPaths, m) == ScalePassSpec(scale, fs, excluded, logPaths, k)
    decreases m
  {
    if k < m {
      ScalePassStays(scale, fs, excluded, logPaths, k, m - 1);
    }
  }

  /** Pass 3 has its result once it has visited every row or met an uncaught failure. */
  lemma ScalePassDone(scale: (Files, nat) -> Result<Files, Failure>, fs: Files, excluded: seq<nat>,
                      logPaths: seq<Option<string>>, k: nat, r: Progress)
    requires k <= |logPaths| && ScalePassSpec(scale, fs, excluded, logPaths, k) == r
    requires k == |logPaths| || r.failure.Some?
    ensures ScalePassSpec(scale, fs, excluded, logPaths, |logPaths|) == r
  {
    if k < |logPaths| {
      ScalePassStays(scale, fs, excluded, logPaths, k, |logPaths|);
    }
  }

  /** The paths pass 3 may write: each row's file and its `.tmp` */
  function TmpPaths(rows: seq<Row>): set<string> {
    set j | 0 <= j < |rows| :: TmpPath(rows[j].filePath)
  }

  function RowPaths(rows: seq<Row>): set<string> {
    set j | 0 <= j < |rows| :: rows[j].filePath
  }

  /** Scaling row j replaces only that row's file (and drops its `.tmp`) and
      keeps the bigWigs well formed. */
  ghost predicate ScalingFrames(scale: (Files, nat) -> Result<Files, Failure>, rows: seq<Row>) {
    forall f: Files, j: nat :: j < |rows| && TracksWellFormed(f) && scale(f, j).Ok? ==>
      ReplacedOnly(f, scale(f, j).value, rows[j].filePath) && TracksWellFormed(scale(f, j).value)
  }

  /** min_max_scale_file has that frame. */
  lemma RowScalingFrames(env: Env, rows: seq<Row>, logPaths: seq<Option<string>>, lo: real, hi: real)
    ensures ScalingFrames(RowScaling(env, rows, logPaths, lo, hi), rows)
  {
    var scale := RowScaling(env, rows, logPaths, lo, hi);
    forall f: Files, j: nat | j < |rows| && TracksWellFormed(f) && scale(f, j).Ok?
      ensures ReplacedOnly(f, scale(f, j).value, rows[j].filePath) && TracksWellFormed(scale(f, j).value)
    {
      MinMaxScaleFrame(env, f, rows[j].filePath, logPaths[j].value, lo, hi, rows[j].format);
    }
  }

  /** Pass 3, whether it fails or not, keeps the bigWigs well formed, creates
      no path, removes none but the rows' `.tmp` files, and leaves every path
      other than the rows' files and their `.tmp` as it was. */
  lemma {:induction false} ScalePassFrame(scale: (Files, nat) -> Result<Files, Failure>, fs: Files, excluded: seq<nat>,
                                          rows: seq<Row>, logPaths: seq<Option<string>>, k: nat)
    requires k <= |rows| == |logPaths| && TracksWellFormed(fs) && ScalingFrames(scale, rows)
    ensures var r := ScalePassSpec(scale, fs, excluded, logPaths, k);
      && TracksWellFormed(r.fs)
      && r.fs.Keys <= fs.Keys
      && (forall x :: x in fs && x !in TmpPaths(rows) ==> x in r.fs)
      && (forall x :: x in fs && x !in TmpPaths(rows) && x !in RowPaths(rows) ==> r.fs[x] == fs[x])
    decreases k
  {
    if k > 0 {
      ScalePassFrame(scale, fs, excluded, rows, logPaths, k - 1);
      var acc := ScalePassSpec(scale, fs, excluded, logPaths, k - 1);
      var row := rows[k - 1];
      assert TmpPath(row.filePath) in TmpPaths(rows);
      assert row.filePath in RowPaths(rows);
    }
  }

  /** The body of pass 3's loop for row j: pass 3 over one more row */
  method ScaleRow(env: Env, fs0: Files, excluded0: seq<nat>, rows: seq<Row>, logPaths: seq<Option<string>>,
                  lo: real, hi: real, j: nat, acc: Progress) returns (r: Progress)
    requires j < |rows| == |logPaths| && TracksWellFormed(fs0) && acc.failure.None?
    requires ScalePassSpec(RowScaling(env, rows, logPaths, lo, hi), fs0, excluded0, logPaths, j) == acc
    ensures r == ScalePassSpec(RowScaling(env, rows, logPaths, lo, hi), fs0, excluded0, logPaths, j + 1)
  {
    RowScalingFrames(env, rows, logPaths, lo, hi);
    ScalePassFrame(RowScaling(env, rows, logPaths, lo, hi), fs0, excluded0, rows, logPaths, j);
    var row := rows[j];
    if j in acc.excluded {
      return acc;
    }
    if logPaths[j].None? {
      return acc.(failure := Some(TypeError));
    }
    var s := MinMaxScaleFile(env, acc.fs, row.filePath, logPaths[j].value, lo, hi, row.format);
    assert RowScaling(env, rows, logPaths, lo, hi)(acc.fs, j) == s;
    if s.Err? {
      if s.error == RuntimeError {
        return acc.(excluded := acc.excluded + [j]);
      }
      return acc.(failure := Some(s.error));
    }
    return acc.(fs := s.value);
  }

  /** Pass 3: min-max scale every row not excluded, up to the first uncaught failure */
  method ScalePass(env: Env, fs0: Files, excluded0: seq<nat>, rows: seq<Row>, logPaths: seq<Option<string>>,
                   lo: real, hi: real) returns (r: Progress)
    requires |rows| == |logPaths| && TracksWellFormed(fs0)
    ensures r == ScalePassSpec(RowScaling(env, rows, logPaths, lo, hi), fs0, excluded0, logPaths, |rows|)
  {
    r := Progress(fs0, excluded0, None);
    var j := 0;
    while j < |rows| && r.failure.None?
      invariant 0 <= j <= |rows|
      invariant ScalePassSpec(RowScaling(env, rows, logPaths, lo, hi), fs0, excluded0, logPaths, j) == r
    {
      r := ScaleRow(env, fs0, excluded0, rows, logPaths, lo, hi, j, r);
      j := j + 1;
    }
    ScalePassDone(RowScaling(env, rows, logPaths, lo, hi), fs0, excluded0, logPaths, j, r);
  }

  /** Pass 3 only ever adds the row being scaled to the excluded list, so the
      list stays free of repetitions and within the table, whether the pass
      fails or not. */
  lemma {:induction false} ScalePassExcluded(scale: (Files, nat) -> Result<Files, Failure>, fs: Files, excluded: seq<nat>,
                                             logPaths: seq<Option<string>>, k: nat)
    requires k <= |logPaths|
    requires forall a, b :: 0 <= a < b < |excluded| ==> excluded[a] != excluded[b]
    requires forall j :: j in excluded ==> j < |logPaths|
    ensures var ex := ScalePassSpec(scale, fs, excluded, logPaths, k).excluded;
      && excluded <= ex
      && (forall a, b :: 0 <= a < b < |ex| ==> ex[a] != ex[b])
      && (forall j :: j in ex ==> j < |logPaths|)
    decreases k
  {
    if k > 0 {
      ScalePassExcluded(scale, fs, excluded, logPaths, k - 1);
      var acc := ScalePassSpec(scale, fs, excluded, logPaths, k - 1);
      ExcludedGrows(excluded, acc.excluded, ScalePassSpec(scale, fs, excluded, logPaths, k).excluded, k - 1, |logPaths|);
    }
  }

  /** Appending a row number not yet listed keeps the list free of repetitions. */
  lemma ExcludedGrows(ex0: seq<nat>, ex: seq<nat>, ex': seq<nat>, j: nat, n: nat)
    requires ex0 <= ex && j < n
    requires forall a, b :: 0 <= a < b < |ex| ==> ex[a] != ex[b]
    requires forall i :: i in ex ==> i < n
    requires ex' == ex || (j !in ex && ex' == ex + [j])
    ensures ex0 <= ex'
    ensures forall a, b :: 0 <= a < b < |ex'| ==> ex'[a] != ex'[b]
    ensures forall i :: i in ex' ==> i < n
  {
    if ex' != ex {
      forall a, b | 0 <= a < b < |ex'| ensures ex'[a] != ex'[b] {
        if b == |ex| {
          assert ex'[a] in ex;
        }
      }
    }
  }

  /** normalize_all: the file system after the three passes, the excluded
      row numbers and the failure that ended the run; a missing linkage table
      is FileNotFound before anything is written, a failure in pass 2 leaves
      the log files of pass 1. When no file reached pass 2 the maximum stays
      -inf and pass 3 scales nothing, so the value passed on for it does not
      matter. */
  function NormalizeAllSpec(env: Env, fs: Files, table: Option<seq<Row>>): Progress {
    match table
    case None => Progress(fs, [], Some(FileNotFound))
    case Some(rows) =>
      var pass1 := LogPassSpec(env, fs, rows);
      match ExtremaPassSpec(env, pass1.0, pass1.1)
      case Err(f) => Progress(pass1.0, NoneIndices(pass1.1), Some(f))
      case Ok(ext) =>
        var hi := if ext.1.Fin? then ext.1.r else 0.0;
        ScalePassSpec(RowScaling(env, rows, pass1.1, ext.0, hi), pass1.0, NoneIndices(pass1.1), pass1.1, |rows|)
  }

  method NormalizeAll(env: Env, fs: Files, table: Option<seq<Row>>) returns (r: Progress)
    requires TracksWellFormed(fs)
    ensures r == NormalizeAllSpec(env, fs, table)
  {
    if table.None? {
      return Progress(fs, [], Some(FileNotFound));
    }
    var rows := table.value;
    var fs1, logPaths, excluded := LogPass(env, fs, rows);
    LogPassFacts(env, fs, rows);
    var ext := ExtremaPass(env, fs1, logPaths);
    if ext.Err? {
      return Progress(fs1, excluded, Some(ext.error));
    }
    var lo := ext.value.0;
    var hi := if ext.value.1.Fin? then ext.value.1.r else 0.0;
    r := ScalePass(env, fs1, excluded, rows, logPaths, lo, hi);
  }

  /** A run, finished or not, excludes every row that failed log scaling,
      lists each row at most once, and leaves the bigWigs well formed; when
      the run finished with the maximum still -inf every row was excluded. */
  lemma NormalizeAllFacts(env: Env, fs: Files, rows: seq<Row>)
    requires TracksWellFormed(fs)
    ensures var pass1 := LogPassSpec(env, fs, rows);
      var r := NormalizeAllSpec(env, fs, Some(rows));
      var ex := r.excluded;
      && TracksWellFormed(r.fs)
      && (forall j :: 0 <= j < |rows| && pass1.1[j].None? ==> j in ex)
      && (forall a, b :: 0 <= a < b < |ex| ==> ex[a] != ex[b])
      && (forall j :: j in ex ==> j < |rows|)
      && (ExtremaPassSpec(env, pass1.0, pass1.1).Ok? && ExtremaPassSpec(env, pass1.0, pass1.1).value.1.NegInf? ==>
            forall j :: 0 <= j < |rows| ==> j in ex)
  {
    var pass1 := LogPassSpec(env, fs, rows);
    LogPassFacts(env, fs, rows);
    NoneIndicesFacts(pass1.1);
    var ns := NoneIndices(pass1.1);
    assert forall a, b :: 0 <= a < b < |ns| ==> ns[a] != ns[b];
    if ExtremaPassSpec(env, pass1.0, pass1.1).Ok? {
      ExtremaCoverFiles(env, pass1.0, pass1.1);
      var ext := ExtremaPassSpec(env, pass1.0, pass1.1).value;
      var hi := if ext.1.Fin? then ext.1.r else 0.0;
      ScalePassExcluded(RowScaling(env, rows, pass1.1, ext.0, hi), pass1.0, ns, pass1.1, |rows|);
      RowScalingFrames(env, rows, pass1.1, ext.0, hi);
      ScalePassFrame(RowScaling(env, rows, pass1.1, ext.0, hi), pass1.0, ns, rows, pass1.1, |rows|);
    }
  }

  /** Whatever way a run ends, every path that existed before it, and every
      path pass 1 left (the `.ln` logs among them), still exists unless it is
      a row's `.tmp`, and pass 3 creates no path. */
  lemma NormalizeAllKeeps(env: Env, fs: Files, rows: seq<Row>)
    requires TracksWellFormed(fs)
    ensures var pass1 := LogPassSpec(env, fs, rows);
      var r := NormalizeAllSpec(env, fs, Some(rows));
      && (forall x :: x in fs && x !in TmpPaths(rows) ==> x in r.fs)
      && (forall x :: x in pass1.0 && x !in TmpPaths(rows) ==> x in r.fs)
      && r.fs.Keys <= pass1.0.Keys
  {
    var pass1 := LogPassSpec(env, fs, rows);
    LogPassFacts(env, fs, rows);
    if ExtremaPassSpec(env, pass1.0, pass1.1).Ok? {
      var ext := ExtremaPassSpec(env, pass1.0, pass1.1).value;
      var hi := if ext.1.Fin? then ext.1.r else 0.0;
      RowScalingFrames(env, rows, pass1.1, ext.0, hi);
      ScalePassFrame(RowScaling(env, rows, pass1.1, ext.0, hi), pass1.0, NoneIndices(pass1.1), rows, pass1.1, |rows|);
    }
  }
}
