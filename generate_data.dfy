/** The data preparation wrapper: which steps a run performs and in which
    order, the row lists handed to the validation and normalization tools, and
    the chrom.sizes paths handed to the read merger. External programs are
    represented by their return codes and success flags. */
module GenerateData {
  import opened Util
  import Merge

  // --------------------------------------------------------------------
  // pull_data
  // --------------------------------------------------------------------

  datatype Step = GenerateCsv | Download | Validate | MergeReads | SortFiles | Pickle | Normalize

  datatype Failure =
    | CsvFailed            // generate_linking_table.r failed or wrote no csv
    | DownloadFailed       // download_deepblue_data.r returned neither 0 nor 2
    | ConvertFailed        // convert_files.sh returned non-zero
    | SortFailed           // sort_files.sh returned non-zero
    | StepFailed(step: Step) // merge_all, parse or normalize_all raised
    | StopIteration        // a csv file without a header line
    | ValueError           // a header without a needed column
    | IndexError           // a row too short for a checked column
    | TypeError            // str and bytes concatenated

  /** What the external programs and called steps do in one run */
  datatype Outcomes = Outcomes(
    csvRc: int, csvMade: bool, downloadRc: int, convertRc: int,
    mergeOk: bool, sortRc: int, pickleOk: bool, normalizeOk: bool)

  /** The steps a run performs, the failing one included, and its failure */
  datatype Run = Run(steps: seq<Step>, failure: Option<Failure>)

  /** generate_csv: raises unless the tool returns 0 and the csv exists */
  function CsvCheck(o: Outcomes): (r: Option<Failure>)
    ensures r.None? <==> o.csvRc == 0 && o.csvMade
  {
    if o.csvRc != 0 || !o.csvMade then Some(CsvFailed) else None
  }

  /** download_data: 2 means no new data, 0 new data, anything else raises */
  function DownloadResult(rc: int): (r: Result<bool, Failure>)
    ensures r == Ok(false) <==> rc == 2
    ensures r == Ok(true) <==> rc == 0
    ensures r.Err? <==> rc != 0 && rc != 2
  {
    if rc == 2 then Ok(false)
    else if rc != 0 then Err(DownloadFailed)
    else Ok(true)
  }

  /** validate, merge, sort and pickle, when they run at all */
  function PrepareSpec(run: bool, o: Outcomes): Run {
    if !run then Run([], None)
    else if o.convertRc != 0 then Run([Validate], Some(ConvertFailed))
    else if !o.mergeOk then Run([Validate, MergeReads], Some(StepFailed(MergeReads)))
    else if o.sortRc != 0 then Run([Validate, MergeReads, SortFiles], Some(SortFailed))
    else if !o.pickleOk then Run([Validate, MergeReads, SortFiles, Pickle], Some(StepFailed(Pickle)))
    else Run([Validate, MergeReads, SortFiles, Pickle], None)
  }

  function PullSpec(offline: bool, redo: bool, o: Outcomes): Run {
    if !offline && CsvCheck(o).Some? then Run([GenerateCsv], CsvCheck(o))
    else if !offline && DownloadResult(o.downloadRc).Err? then Run([GenerateCsv, Download], Some(DownloadFailed))
    else
      var pre := if offline then [] else [GenerateCsv, Download];
      var newdata := !offline && DownloadResult(o.downloadRc) == Ok(true);
      var p := PrepareSpec(newdata || redo, o);
      if p.failure.Some? then Run(pre + p.steps, p.failure)
      else Run(pre + p.steps + [Normalize], if o.normalizeOk then None else Some(StepFailed(Normalize)))
  }

  /** The position of a step in the wrapper's fixed order */
  function Rank(s: Step): nat {
    match s
    case GenerateCsv => 0
    case Download => 1
    case Validate => 2
    case MergeReads => 3
    case SortFiles => 4
    case Pickle => 5
    case Normalize => 6
  }

  /** The configuration a run starts from, and the steps it has performed */
  class DataConfig {
    const genome: seq<string>
    const chromosome: seq<string>
    const biosource: seq<string>
    const epigeneticMark: seq<string>
    const outpath: string
    const csvname: string
    const redoverification: bool
    const offline: bool
    var steps: seq<Step>

    constructor(genome: seq<string>, chromosome: seq<string>, biosource: seq<string>, epigeneticMark: seq<string>,
                outpath: string, csvname: string, redoverification: bool, offline: bool)
      ensures this.genome == genome && this.chromosome == chromosome && this.biosource == biosource
      ensures this.epigeneticMark == epigeneticMark && this.outpath == outpath && this.csvname == csvname
      ensures this.redoverification == redoverification && this.offline == offline
      ensures steps == []
    {
      this.genome := genome;
      this.chromosome := chromosome;
      this.biosource := biosource;
      this.epigeneticMark := epigeneticMark;
      this.outpath := outpath;
      this.csvname := csvname;
      this.redoverification := redoverification;
      this.offline := offline;
      steps := [];
    }

    method GenerateCsvStep(o: Outcomes) returns (failure: Option<Failure>)
      modifies this
      ensures steps == old(steps) + [GenerateCsv] && failure == CsvCheck(o)
    {
      steps := steps + [GenerateCsv];
      if o.csvRc != 0 || !o.csvMade {
        return Some(CsvFailed);
      }
      return None;
    }

    method DownloadStep(o: Outcomes) returns (r: Result<bool, Failure>)
      modifies this
      ensures steps == old(steps) + [Download] && r == DownloadResult(o.downloadRc)
    {
      steps := steps + [Download];
      if o.downloadRc == 2 {
        return Ok(false);
      }
      if o.downloadRc != 0 {
        return Err(DownloadFailed);
      }
      return Ok(true);
    }

    /** One step whose success is given: record it, fail with `f` otherwise */
    method RunStep(s: Step, ok: bool, f: Failure) returns (failure: Option<Failure>)
      modifies this
      ensures steps == old(steps) + [s] && failure == (if ok then None else Some(f))
    {
      steps := steps + [s];
      failure := if ok then None else Some(f);
    }

    /** validate, merge, sort and pickle, each run only after the previous one succeeded */
    method PrepareData(o: Outcomes) returns (failure: Option<Failure>)
      modifies this
      ensures steps == old(steps) + PrepareSpec(true, o).steps
      ensures failure == PrepareSpec(true, o).failure
    {
      failure := RunStep(Validate, o.convertRc == 0, ConvertFailed);
      if failure.Some? {
        return;
      }
      failure := RunStep(MergeReads, o.mergeOk, StepFailed(MergeReads));
      if failure.Some? {
        return;
      }
      failure := RunStep(SortFiles, o.sortRc == 0, SortFailed);
      if failure.Some? {
        return;
      }
      failure := RunStep(Pickle, o.pickleOk, StepFailed(Pickle));
    }

    method PullData(o: Outcomes) returns (failure: Option<Failure>)
      modifies this
      ensures steps == old(steps) + PullSpec(offline, redoverification, o).steps
      ensures failure == PullSpec(offline, redoverification, o).failure
    {
      var newdata := false;
      if !offline {
        failure := GenerateCsvStep(o);
        if failure.Some? {
          return;
        }
        var dl := DownloadStep(o);
        if dl.Err? {
          return Some(dl.error);
        }
        newdata := dl.value;
      }
      ghost var pre := if offline then [] else [GenerateCsv, Download];
      assert steps == old(steps) + pre;
      assert newdata == (!offline && DownloadResult(o.downloadRc) == Ok(true));
      ghost var p := PrepareSpec(newdata || redoverification, o);
      if newdata || redoverification {
        failure := PrepareData(o);
        if failure.Some? {
          assert steps == old(steps) + (pre + p.steps);
          return;
        }
      }
      assert steps == old(steps) + pre + p.steps;
      failure := RunStep(Normalize, o.normalizeOk, StepFailed(Normalize));
      assert steps == old(steps) + (pre + p.steps + [Normalize]);
    }
  }

  const Stages: seq<Step> := [Validate, MergeReads, SortFiles, Pickle]

  /** The middle block performs a prefix of its four steps: none when it does
      not run, validation at least when it does, all four when it succeeds. */
  lemma PrepareShape(run: bool, o: Outcomes)
    ensures var p := PrepareSpec(run, o);
      && |p.steps| <= 4 && (forall i :: 0 <= i < |p.steps| ==> p.steps[i] == Stages[i])
      && (p.steps == [] <==> !run)
      && (p.failure.None? ==> p.steps == (if run then Stages else []))
  {
  }

  /** Ranks strictly increase along the sequence */
  predicate InOrder(s: seq<Step>) {
    forall i, j :: 0 <= i < j < |s| ==> Rank(s[i]) < Rank(s[j])
  }

  /** The shape every run that gets past the download has */
  lemma ShapeInOrder(pre: seq<Step>, mid: seq<Step>, tail: seq<Step>)
    requires pre == [] || pre == [GenerateCsv, Download]
    requires |mid| <= 4 && forall i :: 0 <= i < |mid| ==> mid[i] == Stages[i]
    requires tail == [] || tail == [Normalize]
    ensures InOrder(pre + mid + tail)
    ensures Normalize in pre + mid + tail ==> tail == [Normalize]
  {
    var s := pre + mid + tail;
    var n := |pre| + |mid|;
    forall i | 0 <= i < |s|
      ensures Rank(s[i]) == if i < n then i + 2 - |pre| else 6
    {
      if i < |pre| {
        assert s[i] == pre[i];
      } else if i < n {
        assert s[i] == mid[i - |pre|] == Stages[i - |pre|];
      } else {
        assert s[i] == tail[i - n];
      }
    }
    assert Normalize !in pre + mid;
  }

  /** The steps of a run keep the wrapper's order, and normalize is the last
      step whenever it runs. */
  lemma PullOrder(offline: bool, redo: bool, o: Outcomes)
    ensures var r := PullSpec(offline, redo, o);
      && InOrder(r.steps)
      && (Normalize in r.steps ==> r.steps[|r.steps| - 1] == Normalize)
  {
    var r := PullSpec(offline, redo, o);
    if !(!offline && CsvCheck(o).Some?) && !(!offline && DownloadResult(o.downloadRc).Err?) {
      var run := (!offline && o.downloadRc == 0) || redo;
      var p := PrepareSpec(run, o);
      PrepareShape(run, o);
      var pre: seq<Step> := if offline then [] else [GenerateCsv, Download];
      var tail := if p.failure.Some? then [] else [Normalize];
      assert r.steps == pre + p.steps + tail;
      ShapeInOrder(pre, p.steps, tail);
    }
  }

  /** Offline runs neither generate the csv nor download; other runs start
      by generating it. */
  lemma PullOffline(offline: bool, redo: bool, o: Outcomes)
    ensures var r := PullSpec(offline, redo, o);
      && (offline ==> GenerateCsv !in r.steps && Download !in r.steps)
      && (!offline ==> r.steps[0] == GenerateCsv)
  {
  }

  /** Validate, merge, sort and pickle run exactly when the run got past the
      download and new data arrived or re-verification is asked for;
      normalize runs whenever nothing failed before it, and the run succeeds
      exactly when normalize ran and succeeded. */
  lemma PullStages(offline: bool, redo: bool, o: Outcomes)
    ensures var r := PullSpec(offline, redo, o);
      var reached := offline || (CsvCheck(o).None? && DownloadResult(o.downloadRc).Ok?);
      var newdata := !offline && o.downloadRc == 0;
      && (Validate in r.steps <==> reached && (newdata || redo))
      && (MergeReads in r.steps || SortFiles in r.steps || Pickle in r.steps ==> Validate in r.steps)
      && (Normalize in r.steps <==> reached && PrepareSpec(newdata || redo, o).failure.None?)
      && (r.failure.None? <==> Normalize in r.steps && o.normalizeOk)
  {
  }

  // --------------------------------------------------------------------
  // Row selection for validation and normalization
  // --------------------------------------------------------------------

  /** The lists the run was configured with */
  datatype Request = Request(genomes: seq<string>, chromosomes: seq<string>, biosources: seq<string>, marks: seq<string>)

  /** A csv file as csv.reader yields it: a line of cells per line */
  datatype CsvFile = CsvFile(lines: seq<seq<string>>)

  const AccessTechniques: seq<string> := ["atac-seq", "dnase-seq"]

  /** The positions of the checked columns in a header */
  datatype Columns = Columns(genome: nat, biosource: nat, chromosome: nat, mark: nat, technique: nat, filename: nat)

  /** The header.index lookups; with `bw` also the filename column. A missing
      column raises ValueError. */
  function ColumnsOf(header: seq<string>, bw: bool): (r: Result<Columns, Failure>)
    ensures r.Ok? ==> && r.value.genome < |header| && r.value.biosource < |header| && r.value.chromosome < |header|
                      && r.value.mark < |header| && r.value.technique < |header| && (bw ==> r.value.filename < |header|)
  {
    var g := IndexOf(header, "genome");
    var b := IndexOf(header, "biosource");
    var c := IndexOf(header, "chromosome");
    var f := if bw then IndexOf(header, "filename") else Some(0);
    var m := IndexOf(header, "epigenetic_mark");
    var t := IndexOf(header, "technique");
    if g.None? || b.None? || c.None? || f.None? || m.None? || t.None? then Err(ValueError)
    else Ok(Columns(g.value, b.value, c.value, m.value, t.value, f.value))
  }

  /** Python's `and` on tests that may raise: the second test counts only
      when the first one holds. */
  function And(a: Result<bool, Failure>, b: Result<bool, Failure>): (r: Result<bool, Failure>)
    ensures r == Ok(true) <==> a == Ok(true) && b == Ok(true)
  {
    if a != Ok(true) then a else b
  }

  function InCell(row: seq<string>, k: nat, allowed: seq<string>): Result<bool, Failure> {
    if k < |row| then Ok(row[k] in allowed) else Err(IndexError)
  }

  /** The `.bw` filename test of the normalization passes (absent otherwise) */
  function BwCell(row: seq<string>, k: nat, bw: bool): Result<bool, Failure> {
    if !bw then Ok(true)
    else if k < |row| then Ok(EndsWith(row[k], ".bw"))
    else Err(IndexError)
  }

  datatype Pass = ChipPass | AccessPass

  /** The test one pass applies to a row, in the order the source writes it */
  function RowTest(cols: Columns, req: Request, pass: Pass, bw: bool, row: seq<string>): Result<bool, Failure> {
    match pass
    case ChipPass =>
      And(InCell(row, cols.genome, req.genomes),
        And(InCell(row, cols.biosource, req.biosources),
          And(InCell(row, cols.mark, req.marks),
            And(InCell(row, cols.chromosome, req.chromosomes), BwCell(row, cols.filename, bw)))))
    case AccessPass =>
      And(InCell(row, cols.technique, AccessTechniques),
        And(InCell(row, cols.genome, req.genomes),
          And(InCell(row, cols.biosource, req.biosources),
            And(InCell(row, cols.chromosome, req.chromosomes), BwCell(row, cols.filename, bw)))))
  }

  /** One pass over the rows: the rows passing the test, in order */
  function Selected(rows: seq<seq<string>>, cols: Columns, req: Request, pass: Pass, bw: bool): Result<seq<seq<string>>, Failure>
    decreases |rows|
  {
    if rows == [] then Ok([])
    else
      match Selected(rows[..|rows| - 1], cols, req, pass, bw)
      case Err(f) => Err(f)
      case Ok(out) =>
        match RowTest(cols, req, pass, bw, rows[|rows| - 1])
        case Err(f) => Err(f)
        case Ok(keep) => Ok(if keep then out + [rows[|rows| - 1]] else out)
  }

  /** A pass that fails on a prefix fails on the whole list the same way. */
  lemma {:induction false} SelectedStays(rows: seq<seq<string>>, cols: Columns, req: Request, pass: Pass, bw: bool, k: nat)
    requires k <= |rows| && Selected(rows[..k], cols, req, pass, bw).Err?
    ensures Selected(rows, cols, req, pass, bw) == Selected(rows[..k], cols, req, pass, bw)
    decreases |rows| - k
  {
    if k < |rows| {
      assert rows[..k + 1][..k] == rows[..k];
      SelectedStays(rows, cols, req, pass, bw, k + 1);
    } else {
      assert rows[..k] == rows;
    }
  }

  /** The writing loop of one pass */
  method SelectRows(rows: seq<seq<string>>, cols: Columns, req: Request, pass: Pass, bw: bool)
    returns (r: Result<seq<seq<string>>, Failure>)
    ensures r == Selected(rows, cols, req, pass, bw)
  {
    var out := [];
    var i := 0;
    while i < |rows|
      invariant 0 <= i <= |rows|
      invariant Selected(rows[..i], cols, req, pass, bw) == Ok(out)
    {
      assert rows[..i + 1][..i] == rows[..i];
      var keep := RowTest(cols, req, pass, bw, rows[i]);
      if keep.Err? {
        SelectedStays(rows, cols, req, pass, bw, i + 1);
        return Err(keep.error);
      }
      if keep.value {
        out := out + [rows[i]];
      }
      i := i + 1;
    }
    assert rows[..i] == rows;
    r := Ok(out);
  }

  /** The rows one csv file contributes: the first pass over the rows after
      the header, then the second pass over the whole file again (the reader
      is rewound, so the header line is read once more). */
  function FileRows(f: CsvFile, req: Request, bw: bool): Result<seq<seq<string>>, Failure> {
    if f.lines == [] then Err(StopIteration)
    else
      match ColumnsOf(f.lines[0], bw)
      case Err(e) => Err(e)
      case Ok(cols) =>
        match Selected(f.lines[1..], cols, req, ChipPass, bw)
        case Err(e) => Err(e)
        case Ok(first) =>
          match Selected(f.lines, cols, req, AccessPass, bw)
          case Err(e) => Err(e)
          case Ok(second) => Ok(first + second)
  }

  method ReadFileRows(f: CsvFile, req: Request, bw: bool) returns (r: Result<seq<seq<string>>, Failure>)
    ensures r == FileRows(f, req, bw)
  {
    if f.lines == [] {
      return Err(StopIteration);
    }
    var cols := ColumnsOf(f.lines[0], bw);
    if cols.Err? {
      return Err(cols.error);
    }
    var first := SelectRows(f.lines[1..], cols.value, req, ChipPass, bw);
    if first.Err? {
      return Err(first.error);
    }
    var second := SelectRows(f.lines, cols.value, req, AccessPass, bw);
    if second.Err? {
      return Err(second.error);
    }
    r := Ok(first.value + second.value);
  }

  /** validation.csv: the linking table's header, then its selected rows */
  function ValidationSpec(table: CsvFile, req: Request): Result<seq<seq<string>>, Failure> {
    match FileRows(table, req, false)
    case Err(e) => Err(e)
    case Ok(rows) => Ok([table.lines[0]] + rows)
  }

  method ValidationList(table: CsvFile, req: Request) returns (r: Result<seq<seq<string>>, Failure>)
    ensures r == ValidationSpec(table, req)
  {
    var rows := ReadFileRows(table, req, false);
    if rows.Err? {
      return Err(rows.error);
    }
    r := Ok([table.lines[0]] + rows.value);
  }

  /** One listed name in the normalization loop; the state says whether the
      header was written, and holds the rows written so far. */
  function NormStep(req: Request, data: string, read: string -> CsvFile, st: (bool, seq<seq<string>>), name: string)
    : Result<(bool, seq<seq<string>>), Failure>
  {
    if !EndsWith(name, ".csv") then Ok(st)
    else
      var f := read(PathJoin(data, name));
      match FileRows(f, req, true)
      case Err(e) => Err(e)
      case Ok(rows) => Ok((true, (if st.0 then st.1 else st.1 + [f.lines[0]]) + rows))
  }

  /** normalization.csv, for the directory listing `names` of `data` */
  function NormSpec(req: Request, data: string, read: string -> CsvFile, names: seq<string>): Result<(bool, seq<seq<string>>), Failure>
    decreases |names|
  {
    if names == [] then Ok((false, []))
    else
      match NormSpec(req, data, read, names[..|names| - 1])
      case Err(e) => Err(e)
      case Ok(st) => NormStep(req, data, read, st, names[|names| - 1])
  }

  lemma {:induction false} NormStays(req: Request, data: string, read: string -> CsvFile, names: seq<string>, k: nat)
    requires k <= |names| && NormSpec(req, data, read, names[..k]).Err?
    ensures NormSpec(req, data, read, names) == NormSpec(req, data, read, names[..k])
    decreases |names| - k
  {
    if k < |names| {
      assert names[..k + 1][..k] == names[..k];
      NormStays(req, data, read, names, k + 1);
    } else {
      assert names[..k] == names;
    }
  }

  method NormalizationList(req: Request, data: string, read: string -> CsvFile, names: seq<string>)
    returns (r: Result<seq<seq<string>>, Failure>)
    ensures NormSpec(req, data, read, names).Err? ==> r == Err(NormSpec(req, data, read, names).error)
    ensures NormSpec(req, data, read, names).Ok? ==> r == Ok(NormSpec(req, data, read, names).value.1)
  {
    var setHeader := false;
    var out := [];
    var i := 0;
    while i < |names|
      invariant 0 <= i <= |names|
      invariant NormSpec(req, data, read, names[..i]) == Ok((setHeader, out))
    {
      assert names[..i + 1][..i] == names[..i];
      if EndsWith(names[i], ".csv") {
        var f := read(PathJoin(data, names[i]));
        var rows := ReadFileRows(f, req, true);
        if rows.Err? {
          NormStays(req, data, read, names, i + 1);
          return Err(rows.error);
        }
        if !setHeader {
          out := out + [f.lines[0]];
          setHeader := true;
        }
        out := out + rows.value;
      }
      i := i + 1;
    }
    assert names[..i] == names;
    r := Ok(out);
  }

  // --------------------------------------------------------------------
  // What the selection means, column by column
  // --------------------------------------------------------------------

  /** The cell of the named column ("" when absent) */
  function Field(header: seq<string>, row: seq<string>, name: string): string {
    match IndexOf(header, name)
    case Some(k) => if k < |row| then row[k] else ""
    case None => ""
  }

  /** The row belongs to the pass: requested genome, biosource and
      chromosome; a requested mark (first pass) or an accessibility technique
      (second pass); and with `bw` a filename ending in .bw. */
  predicate Wanted(header: seq<string>, row: seq<string>, req: Request, pass: Pass, bw: bool) {
    && Field(header, row, "genome") in req.genomes
    && Field(header, row, "biosource") in req.biosources
    && Field(header, row, "chromosome") in req.chromosomes
    && (pass == ChipPass ==> Field(header, row, "epigenetic_mark") in req.marks)
    && (pass == AccessPass ==> Field(header, row, "technique") in AccessTechniques)
    && (bw ==> EndsWith(Field(header, row, "filename"), ".bw"))
  }

  function WantedRows(header: seq<string>, rows: seq<seq<string>>, req: Request, pass: Pass, bw: bool): seq<seq<string>>
    decreases |rows|
  {
    if rows == [] then []
    else
      var out := WantedRows(header, rows[..|rows| - 1], req, pass, bw);
      if Wanted(header, rows[|rows| - 1], req, pass, bw) then out + [rows[|rows| - 1]] else out
  }

  /** The header names every column the passes test. */
  predicate HasColumns(header: seq<string>, bw: bool) {
    && "genome" in header && "biosource" in header && "chromosome" in header
    && "epigenetic_mark" in header && "technique" in header
    && (bw ==> "filename" in header)
  }

  /** A header line followed by rows as wide as the header */
  predicate Rectangular(f: CsvFile) {
    f.lines != [] && forall i :: 0 <= i < |f.lines| ==> |f.lines[i]| == |f.lines[0]|
  }

  lemma {:induction false} WantedMembers(header: seq<string>, rows: seq<seq<string>>, req: Request, pass: Pass, bw: bool)
    ensures forall row :: row in WantedRows(header, rows, req, pass, bw) <==> row in rows && Wanted(header, row, req, pass, bw)
    decreases |rows|
  {
    if rows != [] {
      WantedMembers(header, rows[..|rows| - 1], req, pass, bw);
      assert rows == rows[..|rows| - 1] + [rows[|rows| - 1]];
    }
  }

  lemma {:induction false} WantedConcat(header: seq<string>, a: seq<seq<string>>, b: seq<seq<string>>, req: Request, pass: Pass, bw: bool)
    ensures WantedRows(header, a + b, req, pass, bw) == WantedRows(header, a, req, pass, bw) + WantedRows(header, b, req, pass, bw)
    decreases |b|
  {
    if b == [] {
      assert a + b == a;
    } else {
      var pre := b[..|b| - 1];
      assert (a + b)[..|a + b| - 1] == a + pre;
      assert (a + b)[|a + b| - 1] == b[|b| - 1];
      WantedConcat(header, a, pre, req, pass, bw);
    }
  }

  /** The looked-up positions are those of the named columns. */
  lemma ColumnsNamed(header: seq<string>, bw: bool)
    requires HasColumns(header, bw)
    ensures ColumnsOf(header, bw).Ok?
    ensures var cols := ColumnsOf(header, bw).value;
      && IndexOf(header, "genome") == Some(cols.genome)
      && IndexOf(header, "biosource") == Some(cols.biosource)
      && IndexOf(header, "chromosome") == Some(cols.chromosome)
      && IndexOf(header, "epigenetic_mark") == Some(cols.mark)
      && IndexOf(header, "technique") == Some(cols.technique)
      && (bw ==> IndexOf(header, "filename") == Some(cols.filename))
  {
  }

  /** A row as wide as the header passes a pass's test exactly when that
      pass wants it. */
  lemma RowTestWanted(header: seq<string>, row: seq<string>, req: Request, pass: Pass, bw: bool)
    requires HasColumns(header, bw) && |row| == |header|
    ensures ColumnsOf(header, bw).Ok?
    ensures RowTest(ColumnsOf(header, bw).value, req, pass, bw, row) == Ok(Wanted(header, row, req, pass, bw))
  {
    ColumnsNamed(header, bw);
    var cols := ColumnsOf(header, bw).value;
    FieldCell(header, row, "genome", cols.genome, req.genomes);
    FieldCell(header, row, "biosource", cols.biosource, req.biosources);
    FieldCell(header, row, "chromosome", cols.chromosome, req.chromosomes);
    if bw {
      assert Field(header, row, "filename") == row[cols.filename];
    }
    if pass == ChipPass {
      FieldCell(header, row, "epigenetic_mark", cols.mark, req.marks);
    } else {
      FieldCell(header, row, "technique", cols.technique, AccessTechniques);
    }
  }

  /** The cell test at a named column's position tests that column's field. */
  lemma FieldCell(header: seq<string>, row: seq<string>, name: string, k: nat, allowed: seq<string>)
    requires IndexOf(header, name) == Some(k) && |row| == |header|
    ensures InCell(row, k, allowed) == Ok(Field(header, row, name) in allowed)
  {
  }

  /** On a well-formed file, a pass selects exactly the wanted rows, in order. */
  lemma {:induction false} SelectedWanted(header: seq<string>, rows: seq<seq<string>>, req: Request, pass: Pass, bw: bool)
    requires HasColumns(header, bw)
    requires forall i :: 0 <= i < |rows| ==> |rows[i]| == |header|
    ensures ColumnsOf(header, bw).Ok?
    ensures Selected(rows, ColumnsOf(header, bw).value, req, pass, bw) == Ok(WantedRows(header, rows, req, pass, bw))
    decreases |rows|
  {
    ColumnsNamed(header, bw);
    if rows != [] {
      var pre := rows[..|rows| - 1];
      assert forall i :: 0 <= i < |pre| ==> pre[i] == rows[i];
      SelectedWanted(header, pre, req, pass, bw);
      var last := rows[|rows| - 1];
      RowTestWanted(header, last, req, pass, bw);
    }
  }

  /** The header line itself is never an accessibility row. */
  lemma HeaderNotWanted(header: seq<string>, req: Request, bw: bool)
    requires HasColumns(header, bw)
    ensures !Wanted(header, header, req, AccessPass, bw)
  {
    assert Field(header, header, "technique") == "technique";
    assert "technique" != "atac-seq" && "technique" != "dnase-seq";
  }

  /** What one well-formed file contributes: its rows wanted by the first
      pass, then its rows wanted by the second pass, each in file order. */
  lemma FileRowsWanted(f: CsvFile, req: Request, bw: bool)
    requires Rectangular(f) && HasColumns(f.lines[0], bw)
    ensures FileRows(f, req, bw) == Ok(WantedOf(f, req, bw))
  {
    var header := f.lines[0];
    var body := f.lines[1..];
    ColumnsNamed(header, bw);
    var cols := ColumnsOf(header, bw).value;
    SelectedWanted(header, body, req, ChipPass, bw);
    SelectedWanted(header, f.lines, req, AccessPass, bw);
    assert f.lines == [header] + body;
    AccessSkipsHeader(header, body, req, bw);
  }

  /** The second pass, reading the header line again, never keeps it. */
  lemma AccessSkipsHeader(header: seq<string>, body: seq<seq<string>>, req: Request, bw: bool)
    requires HasColumns(header, bw)
    ensures WantedRows(header, [header] + body, req, AccessPass, bw) == WantedRows(header, body, req, AccessPass, bw)
  {
    WantedConcat(header, [header], body, req, AccessPass, bw);
    HeaderNotWanted(header, req, bw);
    assert [header][..0] == [];
    assert WantedRows(header, [header], req, AccessPass, bw) == [];
    assert [] + WantedRows(header, body, req, AccessPass, bw) == WantedRows(header, body, req, AccessPass, bw);
  }

  /** validation.csv for a well-formed linking table: the header, then the
      rows with requested genome, biosource, mark and chromosome, then the
      atac-seq/dnase-seq rows with requested genome, biosource and chromosome. */
  lemma ValidationContents(table: CsvFile, req: Request)
    requires Rectangular(table) && HasColumns(table.lines[0], false)
    ensures var header := table.lines[0];
      ValidationSpec(table, req) ==
        Ok([header] + WantedRows(header, table.lines[1..], req, ChipPass, false) + WantedRows(header, table.lines[1..], req, AccessPass, false))
  {
    FileRowsWanted(table, req, false);
    var header := table.lines[0];
    var chip := WantedRows(header, table.lines[1..], req, ChipPass, false);
    var access := WantedRows(header, table.lines[1..], req, AccessPass, false);
    assert [header] + (chip + access) == [header] + chip + access;
  }

  /** A linking table lacking one of the checked columns makes validation
      raise, and so does an empty one. */
  lemma ValidationErrors(table: CsvFile, req: Request)
    ensures table.lines == [] ==> ValidationSpec(table, req) == Err(StopIteration)
    ensures table.lines != [] && !HasColumns(table.lines[0], false) ==> ValidationSpec(table, req) == Err(ValueError)
  {
  }

  /** The .csv files of a listing, in listing order */
  function CsvNames(names: seq<string>): (r: seq<string>)
    ensures forall n :: n in r <==> n in names && EndsWith(n, ".csv")
    decreases |names|
  {
    if names == [] then []
    else
      assert names == names[..|names| - 1] + [names[|names| - 1]];
      CsvNames(names[..|names| - 1]) + (if EndsWith(names[|names| - 1], ".csv") then [names[|names| - 1]] else [])
  }

  /** What one file contributes when well formed: the rows the first pass
      wants, then the rows the second pass wants */
  function WantedOf(f: CsvFile, req: Request, bw: bool): seq<seq<string>> {
    if f.lines == [] then []
    else WantedRows(f.lines[0], f.lines[1..], req, ChipPass, bw) + WantedRows(f.lines[0], f.lines[1..], req, AccessPass, bw)
  }

  /** Reference: the wanted rows of each .csv file, file after file */
  function NormRows(req: Request, data: string, read: string -> CsvFile, names: seq<string>): seq<seq<string>>
    decreases |names|
  {
    if names == [] then []
    else
      var name := names[|names| - 1];
      NormRows(req, data, read, names[..|names| - 1]) +
        (if EndsWith(name, ".csv") then WantedOf(read(PathJoin(data, name)), req, true) else [])
  }

  lemma {:induction false} NoCsvNoRows(req: Request, data: string, read: string -> CsvFile, names: seq<string>)
    requires CsvNames(names) == []
    ensures NormRows(req, data, read, names) == []
    decreases |names|
  {
    if names != [] {
      var pre := names[..|names| - 1];
      assert CsvNames(pre) == [] by {
        forall n | n in pre ensures n !in CsvNames(pre) {
          assert n in names;
        }
      }
      NoCsvNoRows(req, data, read, pre);
    }
  }

  predicate CsvFilesWellFormed(data: string, read: string -> CsvFile, names: seq<string>) {
    forall n :: n in names && EndsWith(n, ".csv") ==>
      Rectangular(read(PathJoin(data, n))) && HasColumns(read(PathJoin(data, n)).lines[0], true)
  }

  /** The header normalization.csv starts with: the first .csv file's */
  function FirstHeader(data: string, read: string -> CsvFile, names: seq<string>): seq<seq<string>>
    requires CsvFilesWellFormed(data, read, names)
  {
    var csvs := CsvNames(names);
    if csvs == [] then [] else [read(PathJoin(data, csvs[0])).lines[0]]
  }

  /** normalization.csv when every .csv file is well formed: the header of
      the first .csv file once, then file after file the wanted rows of both
      passes (each also needing a filename ending in .bw); nothing at all
      when the listing has no .csv file. */
  lemma {:induction false} NormalizationContents(req: Request, data: string, read: string -> CsvFile, names: seq<string>)
    requires CsvFilesWellFormed(data, read, names)
    ensures NormInvariant(req, data, read, names)
    decreases |names|
  {
    if names != [] {
      var pre := names[..|names| - 1];
      assert CsvFilesWellFormed(data, read, pre) by {
        forall n | n in pre ensures n in names {
        }
      }
      NormalizationContents(req, data, read, pre);
      NormSnoc(req, data, read, names);
    }
  }

  lemma ConcatAssoc<T>(a: seq<T>, b: seq<T>, c: seq<T>)
    ensures a + b + c == a + (b + c)
  {
  }

  /** What the normalization loop has produced after a well-formed listing */
  predicate NormInvariant(req: Request, data: string, read: string -> CsvFile, names: seq<string>)
    requires CsvFilesWellFormed(data, read, names)
  {
    var r := NormSpec(req, data, read, names);
    && r.Ok?
    && (r.value.0 <==> CsvNames(names) != [])
    && r.value.1 == FirstHeader(data, read, names) + NormRows(req, data, read, names)
  }

  /** The induction step: one more name in the listing */
  lemma NormSnoc(req: Request, data: string, read: string -> CsvFile, names: seq<string>)
    requires names != [] && CsvFilesWellFormed(data, read, names)
    requires CsvFilesWellFormed(data, read, names[..|names| - 1])
    requires NormInvariant(req, data, read, names[..|names| - 1])
    ensures NormInvariant(req, data, read, names)
  {
    var pre := names[..|names| - 1];
    var name := names[|names| - 1];
    if !EndsWith(name, ".csv") {
      assert CsvNames(names) == CsvNames(pre);
    } else if CsvNames(pre) == [] {
      NormSnocFirst(req, data, read, names);
    } else {
      NormSnocMore(req, data, read, names);
    }
  }

  /** The first .csv file of the listing writes the header and its rows. */
  lemma NormSnocFirst(req: Request, data: string, read: string -> CsvFile, names: seq<string>)
    requires names != [] && CsvFilesWellFormed(data, read, names)
    requires CsvFilesWellFormed(data, read, names[..|names| - 1])
    requires NormInvariant(req, data, read, names[..|names| - 1])
    requires EndsWith(names[|names| - 1], ".csv") && CsvNames(names[..|names| - 1]) == []
    ensures NormInvariant(req, data, read, names)
  {
    var pre := names[..|names| - 1];
    var name := names[|names| - 1];
    var f := read(PathJoin(data, name));
    assert name in names;
    FileRowsWanted(f, req, true);
    var rows := WantedOf(f, req, true);
    NoCsvNoRows(req, data, read, pre);
    var st := NormSpec(req, data, read, pre).value;
    assert !st.0 && st.1 == [];
    assert st.1 + [f.lines[0]] == [f.lines[0]];
    assert NormSpec(req, data, read, names) == NormStep(req, data, read, st, name);
    assert NormStep(req, data, read, st, name) == Ok((true, [f.lines[0]] + rows));
    assert CsvNames(names) == [name];
    assert FirstHeader(data, read, names) == [f.lines[0]];
    assert NormRows(req, data, read, names) == rows;
  }

  /** A later .csv file adds only its rows. */
  lemma NormSnocMore(req: Request, data: string, read: string -> CsvFile, names: seq<string>)
    requires names != [] && CsvFilesWellFormed(data, read, names)
    requires CsvFilesWellFormed(data, read, names[..|names| - 1])
    requires NormInvariant(req, data, read, names[..|names| - 1])
    requires EndsWith(names[|names| - 1], ".csv") && CsvNames(names[..|names| - 1]) != []
    ensures NormInvariant(req, data, read, names)
  {
    var pre := names[..|names| - 1];
    var name := names[|names| - 1];
    var f := read(PathJoin(data, name));
    assert name in names;
    FileRowsWanted(f, req, true);
    var rows := WantedOf(f, req, true);
    assert CsvNames(names)[0] == CsvNames(pre)[0];
    var head := FirstHeader(data, read, pre);
    assert FirstHeader(data, read, names) == head;
    var before := NormRows(req, data, read, pre);
    assert NormRows(req, data, read, names) == before + rows;
    var st := NormSpec(req, data, read, pre).value;
    assert st.0 && st.1 == head + before;
    assert NormSpec(req, data, read, names) == NormStep(req, data, read, st, name);
    assert NormStep(req, data, read, st, name) == Ok((true, st.1 + rows));
    ConcatAssoc(head, before, rows);
  }

  // --------------------------------------------------------------------
  // merge_forward_reverse
  // --------------------------------------------------------------------

  function ChromSizePath(out: string, genome: string): string {
    PathJoin(PathJoin(PathJoin(out, "data"), "chromsizes"), genome + ".chrom.sizes")
  }

  /** The chrom.sizes list: one path per requested genome, in order */
  method ChromSizePaths(out: string, genomes: seq<string>) returns (paths: seq<string>)
    ensures |paths| == |genomes|
    ensures forall i :: 0 <= i < |genomes| ==> paths[i] == ChromSizePath(out, genomes[i])
  {
    paths := [];
    var i := 0;
    while i < |genomes|
      invariant 0 <= i <= |genomes|
      invariant |paths| == i
      invariant forall k :: 0 <= k < i ==> paths[k] == ChromSizePath(out, genomes[k])
    {
      paths := paths + [ChromSizePath(out, genomes[i])];
      i := i + 1;
    }
  }

  /** Every path names its genome's file under <out>/data/chromsizes, and the
      merger's lookup (the first path containing the genome) finds a path for
      every requested genome. */
  lemma ChromSizeLookup(out: string, genomes: seq<string>, paths: seq<string>, g: string)
    requires |paths| == |genomes|
    requires forall i :: 0 <= i < |genomes| ==> paths[i] == ChromSizePath(out, genomes[i])
    requires g in genomes
    ensures forall i :: 0 <= i < |paths| ==> EndsWith(paths[i], "/" + genomes[i] + ".chrom.sizes")
    ensures Merge.ChromSizesFor(g, paths).Some? && Contains(Merge.ChromSizesFor(g, paths).value, g)
  {
    forall i | 0 <= i < |paths| ensures EndsWith(paths[i], "/" + genomes[i] + ".chrom.sizes") {
      ChromSizePathNames(out, genomes[i]);
    }
    var i :| 0 <= i < |genomes| && genomes[i] == g;
    ChromSizePathNames(out, g);
    LookupFinds(g, paths, i);
  }

  /** One genome's path ends in /<genome>.chrom.sizes, so it contains the genome. */
  lemma ChromSizePathNames(out: string, genome: string)
    ensures EndsWith(ChromSizePath(out, genome), "/" + genome + ".chrom.sizes")
    ensures Contains(ChromSizePath(out, genome), genome)
  {
    var dir := PathJoin(PathJoin(out, "data"), "chromsizes");
    assert ChromSizePath(out, genome) == dir + ("/" + genome + ".chrom.sizes");
    ContainsConcat(dir + "/", genome, ".chrom.sizes");
    assert ChromSizePath(out, genome) == dir + "/" + genome + ".chrom.sizes";
  }

  lemma {:induction false} LookupFinds(g: string, paths: seq<string>, i: nat)
    requires i < |paths| && Contains(paths[i], g)
    ensures Merge.ChromSizesFor(g, paths).Some? && Contains(Merge.ChromSizesFor(g, paths).value, g)
    decreases i
  {
    if i > 0 && !Contains(paths[0], g) {
      assert paths[1..][i - 1] == paths[i];
      LookupFinds(g, paths[1..], i - 1);
    }
  }
  /** A Python text value: `subprocess.check_output` returns bytes, paths and
      literals are str. */
  datatype PyText = Str(s: string) | Bytes(b: string)

  /** merge_forward_reverse's `which` call: the tool's path and a newline, as bytes. */
  function WhichOutput(path: string): (r: PyText)
    ensures r.Bytes? && r.b == path + "\n"
  {
    Bytes(path + "\n")
  }

  /** The arguments of a tool command, each quoted and preceded by a blank. */
  function Quoted(args: seq<string>): string
    decreases |args|
  {
    if args == [] then "" else Quoted(args[..|args| - 1]) + " \"" + args[|args| - 1] + "\""
  }

  /** The command line convert_bedgraph_to_bigwig and merge_pair build, as
      written: a str appended to the bytes tool path raises TypeError. */
  function CommandAsWritten(tool: PyText, args: seq<string>): (r: Result<string, Failure>)
    ensures r.Err? <==> tool.Bytes?
    ensures r.Err? ==> r.error == TypeError
    ensures r.Ok? ==> r.value == tool.s + Quoted(args)
  {
    match tool
    case Bytes(_) => Err(TypeError)
    case Str(s) => Ok(s + Quoted(args))
  }

  /** Every command built from a `which` result raises TypeError. */
  lemma WhichCommandRaises(path: string, args: seq<string>)
    ensures CommandAsWritten(WhichOutput(path), args) == Err(TypeError)
  {
  }

  /** The tool path intended: `which`'s output decoded and stripped. */
  function ToolPath(out: PyText): (r: PyText)
    ensures r.Str?
    ensures r.s == "" || (!IsSpace(r.s[0]) && !IsSpace(r.s[|r.s| - 1]))
  {
    match out
    case Bytes(b) => Str(Strip(b))
    case Str(s) => Str(Strip(s))
  }

  /** With the intended tool path, the command starts with the path `which`
      found (one without surrounding blanks) and carries the quoted arguments. */
  lemma WhichCommand(path: string, args: seq<string>)
    requires path == "" || (!IsSpace(path[0]) && !IsSpace(path[|path| - 1]))
    ensures CommandAsWritten(ToolPath(WhichOutput(path)), args) == Ok(path + Quoted(args))
  {
    var s := path + "\n";
    if path == "" {
      assert StripLeft(s) == StripLeft(s[1..]);
      assert s[1..] == "";
    } else {
      assert s[0] == path[0];
      assert StripLeft(s) == s;
      assert s[..|s| - 1] == path;
      assert StripRight(s) == StripRight(path);
    }
  }
}
