/** Removal of earlier results from result.csv before a new analysis with the
    same parameters is stored. The file is given as its column names and its
    rows of cell texts; `None` is a file that cannot be read. */
module ModifyCsv {
  import opened Util

  datatype ResultTable = ResultTable(columns: seq<string>, rows: seq<seq<string>>)

  /** Assigning a parameter list of the wrong length to the one-row frame */
  datatype Failure = ValueError

  /** The columns dropped before the row comparison */
  const Popped: seq<string> := ["means", "covariances", "weights", "path", "vis_filename"]

  /** The columns of the one-row parameter frame */
  const ParamColumns: seq<string> := ["genome", "width", "mode", "chr", "biosource", "tf"]

  /** result.csv's columns as the analysis saves them: the nine columns the
      result frame is created with, then the three columns that only the
      concatenated per-tf results bring (path, time, vis_filename) */
  const WrittenColumns: seq<string> :=
    ["genome", "width", "mode", "chr", "biosource", "tf", "means", "covariances", "weights", "path", "time", "vis_filename"]

  /** The cell at a position; a short row reads as empty there (pandas fills
      missing trailing fields) */
  function Cell(row: seq<string>, k: nat): string {
    if k < |row| then row[k] else ""
  }

  /** The cells at the given positions, in that order */
  function Project(row: seq<string>, ps: seq<nat>): seq<string> {
    seq(|ps|, i requires 0 <= i < |ps| => Cell(row, ps[i]))
  }

  /** The positions left after the five pops, in column order */
  function KeptPositions(columns: seq<string>): seq<nat>
    decreases |columns|
  {
    if columns == [] then []
    else
      var n := |columns| - 1;
      KeptPositions(columns[..n]) + (if columns[n] in Popped then [] else [n])
  }

  /** The pops leave only columns not named in Popped, in column order ... */
  lemma {:induction false} KeptPositionsSound(columns: seq<string>)
    ensures forall i :: 0 <= i < |KeptPositions(columns)| ==>
      KeptPositions(columns)[i] < |columns| && columns[KeptPositions(columns)[i]] !in Popped
    ensures forall i, j :: 0 <= i < j < |KeptPositions(columns)| ==> KeptPositions(columns)[i] < KeptPositions(columns)[j]
    decreases |columns|
  {
    if columns != [] {
      var n := |columns| - 1;
      KeptPositionsSound(columns[..n]);
      var pre := KeptPositions(columns[..n]);
      assert KeptPositions(columns) == pre + (if columns[n] in Popped then [] else [n]);
      assert forall i :: 0 <= i < |pre| ==> pre[i] < n && columns[pre[i]] == columns[..n][pre[i]];
    }
  }

  /** ... and every column not named in Popped. */
  lemma {:induction false} KeptPositionsComplete(columns: seq<string>)
    ensures forall j :: 0 <= j < |columns| && columns[j] !in Popped ==> j in KeptPositions(columns)
    decreases |columns|
  {
    if columns != [] {
      var n := |columns| - 1;
      KeptPositionsComplete(columns[..n]);
      var pre := KeptPositions(columns[..n]);
      assert KeptPositions(columns) == pre + (if columns[n] in Popped then [] else [n]);
      assert forall j :: 0 <= j < n ==> columns[j] == columns[..n][j];
    }
  }

  /** The positions of the named columns, when all are present */
  function NamedPositions(columns: seq<string>, names: seq<string>): (r: Option<seq<nat>>)
    ensures r.Some? ==> |r.value| == |names| && forall k :: 0 <= k < |names| ==> IndexOf(columns, names[k]) == Some(r.value[k])
    ensures r.None? ==> exists k :: 0 <= k < |names| && names[k] !in columns
    decreases |names|
  {
    if names == [] then Some([])
    else
      match IndexOf(columns, names[0])
      case None => None
      case Some(p) =>
        match NamedPositions(columns, names[1..])
        case None => assert forall k :: 0 <= k < |names[1..]| ==> names[1..][k] == names[k + 1]; None
        case Some(ps) => assert forall k :: 0 < k < |names| ==> names[k] == names[1..][k - 1]; Some([p] + ps)
  }

  /** The rows whose projection differs from the parameters, in order */
  function Unmatched(rows: seq<seq<string>>, ps: seq<nat>, params: seq<string>): seq<seq<string>>
    decreases |rows|
  {
    if rows == [] then []
    else
      var last := rows[|rows| - 1];
      Unmatched(rows[..|rows| - 1], ps, params) + (if Project(last, ps) != params then [last] else [])
  }

  /** compare as written: the parameters go into a six-column frame; an
      unreadable file or a missing column to pop is swallowed; the remaining
      cells of each row are compared position by position with the parameters,
      and a row of another width makes the comparison raise, which is
      swallowed too. */
  function CompareAsWritten(file: Option<ResultTable>, params: seq<string>): Result<Option<ResultTable>, Failure> {
    if |params| != |ParamColumns| then Err(ValueError)
    else
      match file
      case None => Ok(None)
      case Some(t) =>
        if exists c :: c in Popped && c !in t.columns then Ok(file)
        else
          var ps := KeptPositions(t.columns);
          if t.rows != [] && |ps| != |params| then Ok(file)
          else Ok(Some(t.(rows := Unmatched(t.rows, ps, params))))
  }

  /** compare as intended: the six parameter columns are compared by name;
      a file lacking one of them is left alone. */
  function Compare(file: Option<ResultTable>, params: seq<string>): (r: Result<Option<ResultTable>, Failure>)
    ensures r.Err? <==> |params| != |ParamColumns|
    ensures r.Ok? && file.None? ==> r.value.None?
    ensures r.Ok? && file.Some? ==> r.value.Some? && r.value.value.columns == file.value.columns
  {
    if |params| != |ParamColumns| then Err(ValueError)
    else
      match file
      case None => Ok(None)
      case Some(t) =>
        match NamedPositions(t.columns, ParamColumns)
        case None => Ok(file)
        case Some(ps) => Ok(Some(t.(rows := Unmatched(t.rows, ps, params))))
  }

  // --------------------------------------------------------------------
  // The row loop
  // --------------------------------------------------------------------

  /** The loop collecting the indices of matching rows, and the drop */
  method RemoveMatching(rows: seq<seq<string>>, ps: seq<nat>, params: seq<string>) returns (kept: seq<seq<string>>)
    ensures kept == Unmatched(rows, ps, params)
  {
    var tochange: seq<nat> := [];
    var count := 0;
    while count < |rows|
      invariant 0 <= count <= |rows|
      invariant forall i: nat :: i in tochange <==> i < count && Project(rows[i], ps) == params
    {
      if Project(rows[count], ps) == params {
        tochange := tochange + [count];
      }
      count := count + 1;
    }
    kept := [];
    var k := 0;
    while k < |rows|
      invariant 0 <= k <= |rows|
      invariant kept == Unmatched(rows[..k], ps, params)
    {
      assert rows[..k + 1][..k] == rows[..k];
      if k !in tochange {
        kept := kept + [rows[k]];
      }
      k := k + 1;
    }
    assert rows[..k] == rows;
  }

  method CompareFileAsWritten(file: Option<ResultTable>, params: seq<string>) returns (r: Result<Option<ResultTable>, Failure>)
    ensures r == CompareAsWritten(file, params)
  {
    if |params| != |ParamColumns| {
      return Err(ValueError);
    }
    if file.None? {
      return Ok(None);
    }
    var t := file.value;
    if exists c :: c in Popped && c !in t.columns {
      return Ok(file);
    }
    var ps := KeptPositions(t.columns);
    if t.rows != [] && |ps| != |params| {
      return Ok(file);
    }
    var kept := RemoveMatching(t.rows, ps, params);
    r := Ok(Some(t.(rows := kept)));
  }

  method CompareFile(file: Option<ResultTable>, params: seq<string>) returns (r: Result<Option<ResultTable>, Failure>)
    ensures r == Compare(file, params)
  {
    if |params| != |ParamColumns| {
      return Err(ValueError);
    }
    if file.None? {
      return Ok(None);
    }
    var t := file.value;
    var named := NamedPositions(t.columns, ParamColumns);
    if named.None? {
      return Ok(file);
    }
    var kept := RemoveMatching(t.rows, named.value, params);
    r := Ok(Some(t.(rows := kept)));
  }

  // --------------------------------------------------------------------
  // Properties of the row removal
  // --------------------------------------------------------------------

  /** Exactly the non-matching rows are kept ... */
  lemma {:induction false} UnmatchedMembers(rows: seq<seq<string>>, ps: seq<nat>, params: seq<string>)
    ensures forall row :: row in Unmatched(rows, ps, params) <==> row in rows && Project(row, ps) != params
    ensures |Unmatched(rows, ps, params)| <= |rows|
    decreases |rows|
  {
    if rows != [] {
      var pre := rows[..|rows| - 1];
      UnmatchedMembers(pre, ps, params);
      assert rows == pre + [rows[|rows| - 1]];
    }
  }

  /** ... in their original order ... */
  lemma {:induction false} UnmatchedConcat(a: seq<seq<string>>, b: seq<seq<string>>, ps: seq<nat>, params: seq<string>)
    ensures Unmatched(a + b, ps, params) == Unmatched(a, ps, params) + Unmatched(b, ps, params)
    decreases |b|
  {
    if b == [] {
      assert a + b == a;
    } else {
      var pre := b[..|b| - 1];
      assert (a + b)[..|a + b| - 1] == a + pre;
      UnmatchedConcat(a, pre, ps, params);
    }
  }

  /** ... and a table without a matching row stays as it is. */
  lemma {:induction false} UnmatchedNone(rows: seq<seq<string>>, ps: seq<nat>, params: seq<string>)
    requires forall i :: 0 <= i < |rows| ==> Project(rows[i], ps) != params
    ensures Unmatched(rows, ps, params) == rows
    decreases |rows|
  {
    if rows != [] {
      var pre := rows[..|rows| - 1];
      assert forall i :: 0 <= i < |pre| ==> pre[i] == rows[i];
      UnmatchedNone(pre, ps, params);
    }
  }

  /** A second removal with the same parameters removes nothing more. */
  lemma UnmatchedIdempotent(rows: seq<seq<string>>, ps: seq<nat>, params: seq<string>)
    ensures Unmatched(Unmatched(rows, ps, params), ps, params) == Unmatched(rows, ps, params)
  {
    var u := Unmatched(rows, ps, params);
    UnmatchedMembers(rows, ps, params);
    assert forall i :: 0 <= i < |u| ==> u[i] in u;
    UnmatchedNone(u, ps, params);
  }

  /** The row agrees with the parameters on each of the six named columns. */
  predicate SameParameters(columns: seq<string>, row: seq<string>, params: seq<string>) {
    forall k :: 0 <= k < |ParamColumns| && k < |params| ==>
      match IndexOf(columns, ParamColumns[k])
      case Some(p) => Cell(row, p) == params[k]
      case None => false
  }

  lemma ProjectNamed(columns: seq<string>, row: seq<string>, params: seq<string>, ps: seq<nat>)
    requires |params| == |ParamColumns|
    requires NamedPositions(columns, ParamColumns) == Some(ps)
    ensures Project(row, ps) == params <==> SameParameters(columns, row, params)
  {
    if SameParameters(columns, row, params) {
      forall k | 0 <= k < |ps| ensures Project(row, ps)[k] == params[k] {
        assert IndexOf(columns, ParamColumns[k]) == Some(ps[k]);
      }
    }
    if Project(row, ps) == params {
      forall k | 0 <= k < |ParamColumns| && k < |params|
        ensures match IndexOf(columns, ParamColumns[k]) { case Some(p) => Cell(row, p) == params[k] case None => false }
      {
        assert IndexOf(columns, ParamColumns[k]) == Some(ps[k]);
        assert Project(row, ps)[k] == Cell(row, ps[k]);
      }
    }
  }

  /** compare, as intended: a row is removed exactly when its genome, width,
      mode, chr, biosource and tf equal the parameters (the other columns play
      no part); UnmatchedConcat gives the order of the kept rows. */
  lemma CompareContents(t: ResultTable, params: seq<string>)
    requires |params| == |ParamColumns|
    requires forall c :: c in ParamColumns ==> c in t.columns
    ensures var r := Compare(Some(t), params);
      && r.Ok? && r.value.Some? && r.value.value.columns == t.columns
      && (forall row :: row in r.value.value.rows <==> row in t.rows && !SameParameters(t.columns, row, params))
  {
    var named := NamedPositions(t.columns, ParamColumns);
    assert forall k :: 0 <= k < |ParamColumns| ==> ParamColumns[k] in t.columns;
    var ps := named.value;
    var kept := Unmatched(t.rows, ps, params);
    UnmatchedMembers(t.rows, ps, params);
    forall row ensures row in kept <==> row in t.rows && !SameParameters(t.columns, row, params) {
      ProjectNamed(t.columns, row, params, ps);
    }
  }

  /** Calling compare again with the same parameters changes nothing more. */
  lemma CompareIdempotent(file: Option<ResultTable>, params: seq<string>)
    requires Compare(file, params).Ok?
    ensures Compare(Compare(file, params).value, params) == Compare(file, params)
  {
    if file.Some? && NamedPositions(file.value.columns, ParamColumns).Some? {
      UnmatchedIdempotent(file.value.rows, NamedPositions(file.value.columns, ParamColumns).value, params);
    }
  }

  /** An unreadable file stays unreadable: nothing is written. */
  lemma CompareUnreadable(params: seq<string>)
    requires |params| == |ParamColumns|
    ensures CompareAsWritten(None, params) == Ok(None) && Compare(None, params) == Ok(None)
  {
  }

  // --------------------------------------------------------------------
  // The defect of the positional comparison
  // --------------------------------------------------------------------

  lemma WrittenPopped(k: nat)
    requires k < |WrittenColumns|
    ensures WrittenColumns[k] in Popped <==> 6 <= k <= 9 || k == 11
  {
    if k == 0 { assert WrittenColumns[0] == "genome"; }
    else if k == 1 { assert WrittenColumns[1] == "width"; }
    else if k == 2 { assert WrittenColumns[2] == "mode"; }
    else if k == 3 { assert WrittenColumns[3] == "chr"; }
    else if k == 4 { assert WrittenColumns[4] == "biosource"; }
    else if k == 5 { assert WrittenColumns[5] == "tf"; }
    else if k == 6 { assert WrittenColumns[6] == "means"; }
    else if k == 7 { assert WrittenColumns[7] == "covariances"; }
    else if k == 8 { assert WrittenColumns[8] == "weights"; }
    else if k == 9 { assert WrittenColumns[9] == "path"; }
    else if k == 10 { assert WrittenColumns[10] == "time"; }
    else if k == 11 { assert WrittenColumns[11] == "vis_filename"; }
  }

  lemma KeptSnoc(columns: seq<string>, c: string)
    ensures KeptPositions(columns + [c]) == KeptPositions(columns) + (if c in Popped then [] else [|columns|])
  {
    var cs := columns + [c];
    assert cs[..|cs| - 1] == columns && cs[|cs| - 1] == c;
  }

  lemma KeptStep(k: nat)
    requires k < |WrittenColumns|
    ensures KeptPositions(WrittenColumns[..k + 1]) == KeptPositions(WrittenColumns[..k]) + (if 6 <= k <= 9 || k == 11 then [] else [k])
  {
    WrittenPopped(k);
    KeptSnoc(WrittenColumns[..k], WrittenColumns[k]);
    assert WrittenColumns[..k] + [WrittenColumns[k]] == WrittenColumns[..k + 1];
  }

  lemma KeptPrefix4()
    ensures KeptPositions(WrittenColumns[..4]) == [0, 1, 2, 3]
  {
    assert WrittenColumns[..0] == [];
    KeptStep(0);
    assert KeptPositions(WrittenColumns[..1]) == [0];
    KeptStep(1);
    assert KeptPositions(WrittenColumns[..2]) == [0, 1];
    KeptStep(2);
    assert KeptPositions(WrittenColumns[..3]) == [0, 1, 2];
    KeptStep(3);
    assert KeptPositions(WrittenColumns[..4]) == [0, 1, 2, 3];
  }

  lemma KeptPrefix8()
    ensures KeptPositions(WrittenColumns[..8]) == [0, 1, 2, 3, 4, 5]
  {
    KeptPrefix4();
    KeptStep(4);
    assert KeptPositions(WrittenColumns[..5]) == [0, 1, 2, 3, 4];
    KeptStep(5);
    assert KeptPositions(WrittenColumns[..6]) == [0, 1, 2, 3, 4, 5];
    KeptStep(6);
    assert KeptPositions(WrittenColumns[..7]) == [0, 1, 2, 3, 4, 5];
    KeptStep(7);
    assert KeptPositions(WrittenColumns[..8]) == [0, 1, 2, 3, 4, 5];
  }

  lemma KeptPrefix11()
    ensures KeptPositions(WrittenColumns[..11]) == [0, 1, 2, 3, 4, 5, 10]
  {
    KeptPrefix8();
    KeptStep(8);
    assert KeptPositions(WrittenColumns[..9]) == [0, 1, 2, 3, 4, 5];
    KeptStep(9);
    assert KeptPositions(WrittenColumns[..10]) == [0, 1, 2, 3, 4, 5];
    KeptStep(10);
    assert KeptPositions(WrittenColumns[..11]) == [0, 1, 2, 3, 4, 5, 10];
  }

  lemma KeptLast()
    ensures KeptPositions(WrittenColumns) == KeptPositions(WrittenColumns[..11])
  {
    KeptStep(11);
    assert WrittenColumns[..12] == WrittenColumns;
  }

  /** After the pops the written columns leave seven cells: genome, width,
      mode, chr, biosource, tf and time. */
  lemma WrittenKept()
    ensures KeptPositions(WrittenColumns) == [0, 1, 2, 3, 4, 5, 10]
  {
    KeptPrefix11();
    KeptLast();
  }

  /** As written, compare never removes anything from a result.csv with the
      columns the analysis writes: each row has seven cells left against six
      parameters, so the comparison raises and is swallowed. */
  lemma AsWrittenNeverRemoves(t: ResultTable, params: seq<string>)
    requires t.columns == WrittenColumns && |params| == |ParamColumns|
    ensures CompareAsWritten(Some(t), params) == Ok(Some(t))
  {
    WrittenKept();
    if t.rows == [] {
      assert Unmatched(t.rows, KeptPositions(t.columns), params) == t.rows;
    }
  }

  /** The parameter columns are the first six written columns, in the same
      order, so a row agrees with the parameters by name exactly when its
      first six cells are the parameters. */
  lemma WrittenParams(row: seq<string>, params: seq<string>)
    requires |params| == |ParamColumns| && |row| == |WrittenColumns|
    ensures SameParameters(WrittenColumns, row, params) <==> row[..6] == params
  {
    forall k | 0 <= k < |ParamColumns|
      ensures IndexOf(WrittenColumns, ParamColumns[k]) == Some(k) && Cell(row, k) == row[..6][k]
    {
      WrittenParamAt(k);
    }
    if row[..6] != params {
      var k :| 0 <= k < 6 && row[..6][k] != params[k];
      assert !(match IndexOf(WrittenColumns, ParamColumns[k]) { case Some(p) => Cell(row, p) == params[k] case None => false });
    }
  }

  /** Each parameter column is the written column at the same position. */
  lemma WrittenParamAt(k: nat)
    requires k < |ParamColumns|
    ensures IndexOf(WrittenColumns, ParamColumns[k]) == Some(k)
  {
    var w := WrittenColumns;
    assert w[0] == "genome" && w[1] == "width" && w[2] == "mode" && w[3] == "chr" && w[4] == "biosource" && w[5] == "tf";
    assert ParamColumns[k] == w[k];
    assert ParamColumns[k] !in w[..k] by {
      if k == 1 { assert w[..1] == ["genome"]; }
      else if k == 2 { assert w[..2] == ["genome", "width"]; }
      else if k == 3 { assert w[..3] == ["genome", "width", "mode"]; }
      else if k == 4 { assert w[..4] == ["genome", "width", "mode", "chr"]; }
      else if k == 5 { assert w[..5] == ["genome", "width", "mode", "chr", "biosource"]; }
    }
  }

  /** A stored result with exactly the parameters of the new analysis (for
      instance the row `hg19, 50, auto, chr1, GM12878, ATF3, m, c, w, out, 1.5,
      v.png` against `hg19, 50, auto, chr1, GM12878, ATF3`): the positional
      compare keeps it, the comparison by name removes it. */
  lemma DuplicateKept(row: seq<string>, params: seq<string>)
    requires |params| == |ParamColumns| && |row| == |WrittenColumns|
    requires row[..6] == params
    ensures var t := ResultTable(WrittenColumns, [row]);
      && CompareAsWritten(Some(t), params) == Ok(Some(t))
      && Compare(Some(t), params) == Ok(Some(ResultTable(WrittenColumns, [])))
  {
    var t := ResultTable(WrittenColumns, [row]);
    AsWrittenNeverRemoves(t, params);
    ParamsWritten();
    WrittenParams(row, params);
    CompareContents(t, params);
    HeadMember(Compare(Some(t), params).value.value.rows);
  }

  /** A non-empty sequence holds its first element. */
  lemma HeadMember<T>(xs: seq<T>)
    ensures xs == [] || xs[0] in xs
  {
  }

  lemma ParamsWritten()
    ensures forall c :: c in ParamColumns ==> c in WrittenColumns
  {
    var w := WrittenColumns;
    assert w[0] == "genome" && w[1] == "width" && w[2] == "mode" && w[3] == "chr" && w[4] == "biosource" && w[5] == "tf";
  }
}
