/** merge_reads.py: pairing forward and reverse ATAC-seq read files of the
    linkage table, converting bedGraph members to bigWig, merging each pair,
    converting the merged files when bedGraph is not an allowed format,
    deleting what is no longer needed and appending rows for the merged
    files. The file system is the set of existing paths; the conversion and
    merge tools are parameters that say whether they produced their output. */
module Merge {
  import opened Util

  /** One row of the linkage table (the columns the merge reads, plus the rest) */
  datatype LinkRow = LinkRow(filePath: string, filename: string, technique: string, genome: string,
                             biosource: string, chromosome: string, other: seq<string>)

  /** The linkage table; `hasChromosome` says whether it has a chromosome column. */
  datatype Table = Table(hasChromosome: bool, rows: seq<LinkRow>)

  /** A filtered data frame: each row with its label, the row number in the table */
  type Frame = seq<(nat, LinkRow)>

  /** The external tools: whether bedGraphToBigWig (on a sorted input or not)
      and bigWigMerge write their output */
  datatype Tools = Tools(convert: (string, string, bool) -> bool, merge: (string, string) -> bool)

  datatype Failure = FileNotFound | KeyError | IndexError

  // --------------------------------------------------------------------
  // read_linkage_table
  // --------------------------------------------------------------------

  predicate IsReadFile(r: LinkRow) {
    r.technique == "atac-seq" && (Contains(r.filename, "forward") || Contains(r.filename, "reverse"))
  }

  predicate LabelsIncreasing(frame: Frame) {
    forall a, b :: 0 <= a < b < |frame| ==> frame[a].0 < frame[b].0
  }

  /** read_linkage_table: the forward/reverse ATAC-seq rows in table order,
      each with its row number */
  function ReadFrame(rows: seq<LinkRow>): (frame: Frame)
    ensures forall k :: 0 <= k < |frame| ==> frame[k].0 < |rows| && rows[frame[k].0] == frame[k].1 && IsReadFile(frame[k].1)
    ensures LabelsIncreasing(frame)
    decreases |rows|
  {
    if rows == [] then []
    else
      var n := |rows| - 1;
      var pre := ReadFrame(rows[..n]);
      assert forall k :: 0 <= k < |pre| ==> rows[..n][pre[k].0] == rows[pre[k].0];
      pre + (if IsReadFile(rows[n]) then [(n, rows[n])] else [])
  }

  /** ... and no read file of the table is left out. */
  lemma {:induction false} ReadFrameComplete(rows: seq<LinkRow>, n: nat)
    requires n < |rows| && IsReadFile(rows[n])
    ensures exists k :: 0 <= k < |ReadFrame(rows)| && ReadFrame(rows)[k].0 == n
    decreases |rows|
  {
    var m := |rows| - 1;
    var pre := ReadFrame(rows[..m]);
    var r := ReadFrame(rows);
    assert r == pre + (if IsReadFile(rows[m]) then [(m, rows[m])] else []);
    if n == m {
      assert r[|r| - 1].0 == n;
    } else {
      assert rows[..m][n] == rows[n];
      ReadFrameComplete(rows[..m], n);
      var k :| 0 <= k < |pre| && pre[k].0 == n;
      assert r[k] == pre[k];
    }
  }

  /** `frame[col][label]`: the row with that label; a missing label is a KeyError. */
  function Lookup(frame: Frame, lab: nat): Option<LinkRow>
    decreases |frame|
  {
    if frame == [] then None
    else if frame[0].0 == lab then Some(frame[0].1)
    else Lookup(frame[1..], lab)
  }

  /** A found label names a row of the frame with that label; a missing
      label is carried by no row. */
  lemma {:induction false} LookupFacts(frame: Frame, lab: nat)
    ensures Lookup(frame, lab).Some? ==> exists k :: 0 <= k < |frame| && frame[k] == (lab, Lookup(frame, lab).value)
    ensures Lookup(frame, lab).None? ==> forall k :: 0 <= k < |frame| ==> frame[k].0 != lab
    decreases |frame|
  {
    if frame != [] && frame[0].0 != lab {
      LookupFacts(frame[1..], lab);
      assert forall k :: 1 <= k < |frame| ==> frame[k] == frame[1..][k - 1];
      if Lookup(frame, lab).Some? {
        var k :| 0 <= k < |frame[1..]| && frame[1..][k] == (lab, Lookup(frame, lab).value);
        assert frame[k + 1] == frame[1..][k];
      }
    }
  }

  // --------------------------------------------------------------------
  // find_pairs
  // --------------------------------------------------------------------

  /** The file id: the basename up to its first '.' */
  function FileId(p: string): string {
    BeforeFirst(Basename(p), '.')
  }

  /** The pairing condition of rows a (earlier) and b (later) */
  predicate Pairs(a: LinkRow, b: LinkRow, hasChromosome: bool) {
    && a.genome == b.genome
    && a.biosource == b.biosource
    && Contains(b.filePath, FileId(a.filePath))
    && (hasChromosome ==> a.chromosome == b.chromosome)
  }

  /** Every label below n is present. */
  predicate LabelsFound(frame: Frame, n: nat) {
    forall k :: 0 <= k < n ==> Lookup(frame, k).Some?
  }

  /** The rows with labels 0 .. n-1, in label order */
  function ByLabel(frame: Frame, n: nat): (rs: seq<LinkRow>)
    requires LabelsFound(frame, n)
    ensures |rs| == n && forall k :: 0 <= k < n ==> Lookup(frame, k) == Some(rs[k])
  {
    seq(n, k requires 0 <= k < n => Lookup(frame, k).value)
  }

  /** A pairing test on an earlier and a later row */
  type PairTest = (LinkRow, LinkRow) -> bool

  /** find_pairs' test, with or without the chromosome column */
  function FindPairsTest(hasChromosome: bool): PairTest {
    (a, b) => Pairs(a, b, hasChromosome)
  }

  /** The pairs of row i with each later row of rs */
  function PairsWith(rs: seq<LinkRow>, p: PairTest, i: nat): seq<(string, string)>
    requires i < |rs|
    decreases |rs|
  {
    if |rs| <= i + 1 then []
    else
      var b := rs[|rs| - 1];
      PairsWith(rs[..|rs| - 1], p, i) + (if p(rs[i], b) then [(rs[i].filePath, b.filePath)] else [])
  }

  /** The pairs of the rows 0 .. m-1 with their later rows */
  function AllPairs(rs: seq<LinkRow>, p: PairTest, m: nat): seq<(string, string)>
    requires m <= |rs|
    decreases m
  {
    if m == 0 then []
    else AllPairs(rs, p, m - 1) + PairsWith(rs, p, m - 1)
  }

  /** find_pairs: with fewer than two rows nothing; otherwise every label
      0 .. n-1 is looked up (a KeyError when one is missing) and the pairs
      of the rows so found come in (i, j) order. */
  function FindPairsSpec(frame: Frame, c: bool): Result<seq<(string, string)>, Failure> {
    var n := |frame|;
    if n < 2 then Ok([])
    else if !LabelsFound(frame, n) then Err(KeyError)
    else Ok(AllPairs(ByLabel(frame, n), FindPairsTest(c), n - 1))
  }

  method FindPairs(frame: Frame, c: bool) returns (r: Result<seq<(string, string)>, Failure>)
    ensures r == FindPairsSpec(frame, c)
  {
    var n := |frame|;
    if n < 2 {
      return Ok([]);
    }
    // the first row's lookups establish that every label is present
    var first := PairsOfLabel(frame, c, 0);
    if first.Err? {
      FindPairsMissing(frame, c);
      return Err(KeyError);
    }
    assert LabelsFound(frame, n);
    ghost var rs := ByLabel(frame, n);
    var pairs := first.value;
    AllPairsSnoc(rs, FindPairsTest(c), 0);
    var i := 1;
    while i < n - 1
      invariant 1 <= i <= n - 1
      invariant LabelsFound(frame, n) && rs == ByLabel(frame, n)
      invariant pairs == AllPairs(rs, FindPairsTest(c), i)
    {
      assert LabelsFound(frame, i);
      var more := PairsOfLabel(frame, c, i);
      if more.Err? {
        FindPairsMissing(frame, c);
        return Err(KeyError);
      }
      AllPairsSnoc(rs, FindPairsTest(c), i);
      pairs := pairs + more.value;
      i := i + 1;
    }
    return Ok(pairs);
  }

  lemma AllPairsSnoc(rs: seq<LinkRow>, p: PairTest, m: nat)
    requires m < |rs|
    ensures AllPairs(rs, p, m + 1) == AllPairs(rs, p, m) + PairsWith(rs, p, m)
  {
  }

  /** A missing label makes find_pairs raise KeyError. */
  lemma FindPairsMissing(frame: Frame, c: bool)
    requires |frame| >= 2 && exists j :: 0 <= j < |frame| && Lookup(frame, j).None?
    ensures FindPairsSpec(frame, c) == Err(KeyError)
  {
  }

  /** One pass of the outer loop: look up label i, then pair it with the later labels. */
  method PairsOfLabel(frame: Frame, c: bool, i: nat) returns (r: Result<seq<(string, string)>, Failure>)
    requires i < |frame| && LabelsFound(frame, i)
    ensures r.Err? ==> exists j :: 0 <= j < |frame| && Lookup(frame, j).None?
    ensures r.Ok? ==> LabelsFound(frame, |frame|) && r.value == PairsWith(ByLabel(frame, |frame|), FindPairsTest(c), i)
  {
    var a := Lookup(frame, i);
    if a.None? {
      return Err(KeyError);
    }
    var fileId := FileId(a.value.filePath);
    FindPairsTestById(a.value, c);
    r := PairsOfRow(frame, c, i, a.value, fileId, FindPairsTest(c));
  }

  /** The test of the inner loop, with row a's file id computed once */
  predicate PairsById(a: LinkRow, b: LinkRow, hasChromosome: bool, fileId: string) {
    && a.genome == b.genome
    && a.biosource == b.biosource
    && Contains(b.filePath, fileId)
    && (hasChromosome ==> a.chromosome == b.chromosome)
  }

  /** The inner loop's test is find_pairs' test. */
  lemma FindPairsTestById(a: LinkRow, c: bool)
    ensures forall b :: FindPairsTest(c)(a, b) == PairsById(a, b, c, FileId(a.filePath))
  {
  }

  /** The inner loop of find_pairs: row i, with its file id, against every
      later label, under a pairing test p that agrees with the loop's comparisons */
  method PairsOfRow(frame: Frame, c: bool, i: nat, a: LinkRow, fileId: string, ghost p: PairTest)
    returns (r: Result<seq<(string, string)>, Failure>)
    requires i < |frame| && LabelsFound(frame, i + 1) && Lookup(frame, i) == Some(a)
    requires forall b :: p(a, b) == PairsById(a, b, c, fileId)
    ensures r.Err? ==> r == Err(KeyError) && exists j :: i < j < |frame| && Lookup(frame, j).None?
    ensures r.Ok? ==> LabelsFound(frame, |frame|) && r.value == PairsWith(ByLabel(frame, |frame|), p, i)
  {
    var n := |frame|;
    var pairs: seq<(string, string)> := [];
    var j := i + 1;
    while j < n
      invariant i + 1 <= j <= n
      invariant LabelsFound(frame, j)
      invariant pairs == PairsWith(ByLabel(frame, j), p, i)
    {
      var more := PairWithLabel(frame, c, j, a, fileId);
      if more.None? {
        return Err(KeyError);
      }
      PairsWithStep(frame, p, i, j, a, pairs, more.value);
      pairs := pairs + more.value;
      j := j + 1;
    }
    return Ok(pairs);
  }

  /** One pass of the inner loop: look up label j and give its pair with
      row a when genome, biosource, file id and (when that column exists)
      chromosome agree; None when the label is missing. */
  method PairWithLabel(frame: Frame, c: bool, j: nat, a: LinkRow, fileId: string)
    returns (r: Option<seq<(string, string)>>)
    ensures r.None? ==> Lookup(frame, j).None?
    ensures r.Some? ==> (Lookup(frame, j).Some? &&
      var b := Lookup(frame, j).value;
      r.value == if PairsById(a, b, c, fileId) then [(a.filePath, b.filePath)] else [])
  {
    var b := Lookup(frame, j);
    if b.None? {
      return None;
    }
    var pairs: seq<(string, string)> := [];
    if a.genome == b.value.genome && a.biosource == b.value.biosource && Contains(b.value.filePath, fileId) {
      if c {
        if a.chromosome == b.value.chromosome {
          pairs := [(a.filePath, b.value.filePath)];
        }
      } else {
        pairs := [(a.filePath, b.value.filePath)];
      }
    }
    return Some(pairs);
  }

  /** One more found label j adds its pair with row i when the test passes. */
  lemma PairsWithStep(frame: Frame, p: PairTest, i: nat, j: nat, a: LinkRow, pairs: seq<(string, string)>, more: seq<(string, string)>)
    requires i < j && LabelsFound(frame, j) && Lookup(frame, i) == Some(a) && Lookup(frame, j).Some?
    requires pairs == PairsWith(ByLabel(frame, j), p, i)
    requires var b := Lookup(frame, j).value; more == if p(a, b) then [(a.filePath, b.filePath)] else []
    ensures LabelsFound(frame, j + 1)
    ensures pairs + more == PairsWith(ByLabel(frame, j + 1), p, i)
  {
    assert LabelsFound(frame, j + 1) by {
      forall k | 0 <= k < j + 1 ensures Lookup(frame, k).Some? {
        if k < j { assert Lookup(frame, k).Some?; }
      }
    }
    var rs := ByLabel(frame, j + 1);
    assert rs[..j] == ByLabel(frame, j);
    assert rs[i] == a;
  }

  /** Rows i < j of rs pair up as x. */
  predicate PairAt(rs: seq<LinkRow>, p: PairTest, i: nat, j: nat, x: (string, string)) {
    && i < j < |rs|
    && p(rs[i], rs[j])
    && x == (rs[i].filePath, rs[j].filePath)
  }

  /** The pairs of row i are exactly its matching later rows. */
  lemma PairsWithMembers(rs: seq<LinkRow>, p: PairTest, i: nat)
    requires i < |rs|
    ensures forall x :: x in PairsWith(rs, p, i) <==> exists j :: PairAt(rs, p, i, j, x)
  {
    forall x ensures x in PairsWith(rs, p, i) <==> exists j :: PairAt(rs, p, i, j, x) {
      if x in PairsWith(rs, p, i) {
        var j := PairsWithSound(rs, p, i, x);
      }
      if exists j :: PairAt(rs, p, i, j, x) {
        var j :| PairAt(rs, p, i, j, x);
        PairsWithComplete(rs, p, i, j, x);
      }
    }
  }

  /** Every pair of row i comes from a matching later row j. */
  lemma {:induction false} PairsWithSound(rs: seq<LinkRow>, p: PairTest, i: nat, x: (string, string)) returns (j: nat)
    requires i < |rs| && x in PairsWith(rs, p, i)
    ensures PairAt(rs, p, i, j, x)
    decreases |rs|
  {
    var n := |rs|;
    var pre := rs[..n - 1];
    if x in PairsWith(pre, p, i) {
      j := PairsWithSound(pre, p, i, x);
      assert pre[i] == rs[i] && pre[j] == rs[j];
    } else {
      j := n - 1;
    }
  }

  /** Every matching later row j gives row i a pair. */
  lemma {:induction false} PairsWithComplete(rs: seq<LinkRow>, p: PairTest, i: nat, j: nat, x: (string, string))
    requires PairAt(rs, p, i, j, x)
    ensures x in PairsWith(rs, p, i)
    decreases |rs|
  {
    var n := |rs|;
    var pre := rs[..n - 1];
    if j < n - 1 {
      assert pre[i] == rs[i] && pre[j] == rs[j];
      PairsWithComplete(pre, p, i, j, x);
    }
  }

  /** find_pairs emits [path_i, path_j] for exactly the matching row pairs i < j. */
  lemma AllPairsMembers(rs: seq<LinkRow>, p: PairTest, m: nat)
    requires m <= |rs|
    ensures forall x :: x in AllPairs(rs, p, m) <==> exists i, j :: 0 <= i < m && PairAt(rs, p, i, j, x)
  {
    forall x ensures x in AllPairs(rs, p, m) <==> exists i, j :: 0 <= i < m && PairAt(rs, p, i, j, x) {
      if x in AllPairs(rs, p, m) {
        var i, j := AllPairsSound(rs, p, m, x);
      }
      if exists i, j :: 0 <= i < m && PairAt(rs, p, i, j, x) {
        var i, j :| 0 <= i < m && PairAt(rs, p, i, j, x);
        AllPairsComplete(rs, p, m, i, j, x);
      }
    }
  }

  /** Every emitted pair comes from matching rows i < j. */
  lemma {:induction false} AllPairsSound(rs: seq<LinkRow>, p: PairTest, m: nat, x: (string, string)) returns (i: nat, j: nat)
    requires m <= |rs| && x in AllPairs(rs, p, m)
    ensures i < m && PairAt(rs, p, i, j, x)
    decreases m
  {
    AllPairsSplit(rs, p, m, x);
    if x in AllPairs(rs, p, m - 1) {
      i, j := AllPairsSound(rs, p, m - 1, x);
    } else {
      i := m - 1;
      j := PairsWithSound(rs, p, m - 1, x);
    }
  }

  /** A pair emitted among the first m labels comes from the first m - 1 or from label m - 1. */
  lemma AllPairsSplit(rs: seq<LinkRow>, p: PairTest, m: nat, x: (string, string))
    requires m <= |rs| && x in AllPairs(rs, p, m)
    ensures m > 0 && (x in AllPairs(rs, p, m - 1) || x in PairsWith(rs, p, m - 1))
  {
  }

  /** Every matching row pair i < j is emitted. */
  lemma {:induction false} AllPairsComplete(rs: seq<LinkRow>, p: PairTest, m: nat, i: nat, j: nat, x: (string, string))
    requires m <= |rs| && i < m && PairAt(rs, p, i, j, x)
    ensures x in AllPairs(rs, p, m)
    decreases m
  {
    if i < m - 1 {
      AllPairsComplete(rs, p, m - 1, i, j, x);
    } else {
      PairsWithComplete(rs, p, m - 1, j, x);
    }
  }

  /** With fewer than two read files there is nothing to pair. */
  lemma FindPairsShort(frame: Frame, c: bool)
    requires |frame| < 2
    ensures FindPairsSpec(frame, c) == Ok([])
  {
  }

  /** The label lookup goes wrong as soon as an earlier row was filtered out:
      a table whose first row is not a read file and whose next two rows
      would pair raises KeyError. */
  lemma FindPairsFilteredGap()
    ensures var fwd := LinkRow("d/x_forward.bw", "x_forward.bw", "atac-seq", "hg19", "liver", "chr1", []);
      var rev := LinkRow("d/x_reverse.bw", "x_reverse.bw", "atac-seq", "hg19", "liver", "chr1", []);
      var chip := LinkRow("d/y.bw", "y.bw", "chip-seq", "hg19", "liver", "chr1", []);
      FindPairsSpec(ReadFrame([chip, fwd, rev]), true) == Err(KeyError)
  {
    var fwd := LinkRow("d/x_forward.bw", "x_forward.bw", "atac-seq", "hg19", "liver", "chr1", []);
    var rev := LinkRow("d/x_reverse.bw", "x_reverse.bw", "atac-seq", "hg19", "liver", "chr1", []);
    var chip := LinkRow("d/y.bw", "y.bw", "chip-seq", "hg19", "liver", "chr1", []);
    var rows := [chip, fwd, rev];
    assert !IsReadFile(chip) by { assert chip.technique != "atac-seq"; }
    assert IsReadFile(fwd) by { ContainsConcat("x_", "forward", ".bw"); assert "x_" + "forward" + ".bw" == fwd.filename; }
    assert IsReadFile(rev) by { ContainsConcat("x_", "reverse", ".bw"); assert "x_" + "reverse" + ".bw" == rev.filename; }
    var frame := ReadFrame(rows);
    ReadFrameComplete(rows, 1);
    ReadFrameComplete(rows, 2);
    var k1 :| 0 <= k1 < |frame| && frame[k1].0 == 1;
    var k2 :| 0 <= k2 < |frame| && frame[k2].0 == 2;
    assert k1 != k2;
    assert |frame| >= 2;
    assert forall k :: 0 <= k < |frame| ==> frame[k].0 != 0 by {
      forall k | 0 <= k < |frame| ensures frame[k].0 != 0 {
        assert IsReadFile(rows[frame[k].0]);
      }
    }
    LookupFacts(frame, 0);
    assert Lookup(frame, 0).None?;
  }

  /** The frame with its read-file rows labelled by position */
  function Renumbered(frame: Frame): Frame {
    seq(|frame|, k requires 0 <= k < |frame| => (k, frame[k].1))
  }

  lemma RenumberedLookup(frame: Frame, k: nat)
    requires k < |frame|
    ensures Lookup(Renumbered(frame), k) == Some(frame[k].1)
  {
    var r := Renumbered(frame);
    assert r[k].0 == k;
    LookupFacts(r, k);
    var k' :| 0 <= k' < |r| && r[k'] == (k, Lookup(r, k).value);
    assert r[k'].0 == k';
  }

  /** The read-file rows of a frame, by position */
  function FrameRows(frame: Frame): (rs: seq<LinkRow>)
    ensures |rs| == |frame| && forall k :: 0 <= k < |frame| ==> rs[k] == frame[k].1
  {
    seq(|frame|, k requires 0 <= k < |frame| => frame[k].1)
  }

  /** In the renumbered frame every label is found, and the rows by label
      are the rows by position. */
  lemma ByLabelRenumbered(frame: Frame)
    ensures LabelsFound(Renumbered(frame), |frame|)
    ensures ByLabel(Renumbered(frame), |frame|) == FrameRows(frame)
  {
    var f := Renumbered(frame);
    forall k | 0 <= k < |frame| ensures Lookup(f, k) == Some(frame[k].1) {
      RenumberedLookup(frame, k);
    }
  }

  /** Read-file rows i and j, taken by position, pair up as x. */
  predicate PairAtPosition(frame: Frame, c: bool, i: nat, j: nat, x: (string, string)) {
    && i < j < |frame|
    && Pairs(frame[i].1, frame[j].1, c)
    && x == (frame[i].1.filePath, frame[j].1.filePath)
  }

  /** Rows i and j of the frame's rows pair up under find_pairs' test
      exactly when they pair up by position. */
  lemma PairAtFrameRows(frame: Frame, c: bool, i: nat, j: nat, x: (string, string))
    ensures PairAt(FrameRows(frame), FindPairsTest(c), i, j, x) <==> PairAtPosition(frame, c, i, j, x)
  {
  }

  /** The pairs of the frame's rows are the position pairs that match. */
  lemma PositionalMembers(frame: Frame, c: bool, m: nat)
    requires m + 1 == |frame|
    ensures forall x :: x in AllPairs(FrameRows(frame), FindPairsTest(c), m) <==>
      exists i, j :: PairAtPosition(frame, c, i, j, x)
  {
    var rs := FrameRows(frame);
    var p := FindPairsTest(c);
    AllPairsMembers(rs, p, m);
    var ps := AllPairs(rs, p, m);
    forall x ensures x in ps <==> exists i, j :: PairAtPosition(frame, c, i, j, x) {
      if exists i, j :: PairAtPosition(frame, c, i, j, x) {
        var i: nat, j: nat :| PairAtPosition(frame, c, i, j, x);
        PairAtFrameRows(frame, c, i, j, x);
      }
      if x in ps {
        var i: nat, j: nat :| i < m && PairAt(rs, p, i, j, x);
        PairAtFrameRows(frame, c, i, j, x);
      }
    }
  }

  /** Looking the labels up in the renumbered frame never raises and emits
      exactly the [path_i, path_j] of the matching read-file rows i < j. */
  lemma FindPairsPositional(frame: Frame, c: bool)
    ensures var r := FindPairsSpec(Renumbered(frame), c);
      && r.Ok?
      && forall x :: x in r.value <==> exists i, j :: PairAtPosition(frame, c, i, j, x)
  {
    var n := |frame|;
    if n >= 2 {
      ByLabelRenumbered(frame);
      assert FindPairsSpec(Renumbered(frame), c) == Ok(AllPairs(FrameRows(frame), FindPairsTest(c), n - 1));
      PositionalMembers(frame, c, n - 1);
    } else {
      assert FindPairsSpec(Renumbered(frame), c) == Ok([]);
    }
  }

  /** When the read files are the first rows of the table, each label is
      the row's position, so find_pairs raises nothing and emits exactly the
      position pairs i < j that match. */
  lemma FindPairsLeading(rows: seq<LinkRow>, c: bool)
    requires forall k :: 0 <= k < |ReadFrame(rows)| ==> ReadFrame(rows)[k].0 == k
    ensures var frame := ReadFrame(rows);
      var r := FindPairsSpec(frame, c);
      && r.Ok?
      && forall x :: x in r.value <==> exists i, j :: PairAtPosition(frame, c, i, j, x)
  {
    var frame := ReadFrame(rows);
    assert frame == Renumbered(frame);
    FindPairsPositional(frame, c);
  }

  // --------------------------------------------------------------------
  // Derived paths
  // --------------------------------------------------------------------

  /** convert_bedgraph_to_bigwig's output: the path up to its last '.', plus ".bw" */
  function ConvertedPath(p: string): string {
    BeforeLast(p, '.') + ".bw"
  }

  /** merge_pair's output: the first path up to its first '_', plus "_merged.bedGraph" */
  function MergedPath(p: string): string {
    BeforeFirst(p, '_') + "_merged.bedGraph"
  }

  /** Converting a converted path again names the same file. */
  lemma ConvertedPathIdempotent(p: string)
    ensures EndsWith(ConvertedPath(p), ".bw")
    ensures ConvertedPath(ConvertedPath(p)) == ConvertedPath(p)
  {
    var b := BeforeLast(p, '.');
    var s := b + ".bw";
    assert s[|s| - 1] != '.' && s[|s| - 2] != '.';
    assert s[|s| - 3] == '.';
    assert s[..|s| - 1][..|s| - 2] == s[..|s| - 2];
    assert LastIndexOf(s, '.') == Some(|s| - 3);
    assert s[..|s| - 3] == b;
  }

  /** Merging a merged file's path again names the same file. */
  lemma MergedPathIdempotent(p: string)
    ensures MergedPath(MergedPath(p)) == MergedPath(p)
  {
    var b := BeforeFirst(p, '_');
    BeforeFirstNoSep(b, "_merged.bedGraph", '_');
  }

  lemma {:induction false} BeforeFirstNoSep(a: string, b: string, c: char)
    requires !HasChar(a, c) && b != [] && b[0] == c
    ensures BeforeFirst(a + b, c) == a
    decreases |a|
  {
    if a == [] {
      assert (a + b)[0] == c;
    } else {
      assert (a + b)[1..] == a[1..] + b;
      assert !HasChar(a[1..], c) by {
        forall i | 0 <= i < |a[1..]| ensures a[1..][i] != c { assert a[1..][i] == a[i + 1]; }
      }
      BeforeFirstNoSep(a[1..], b, c);
      assert a == [a[0]] + a[1..];
    }
  }

  // --------------------------------------------------------------------
  // File operations
  // --------------------------------------------------------------------

  /** delete_file: remove the path if it exists */
  function DeleteFile(fs: set<string>, p: string): (r: set<string>)
    ensures r == fs - {p}
  {
    if p in fs then fs - {p} else fs
  }

  /** sort_file: sort into `<p>.tmp` and rename it onto p; FileNotFound when p is missing */
  function SortFile(fs: set<string>, p: string): (r: Result<set<string>, Failure>)
    ensures r.Err? <==> p !in fs
  {
    if p in fs then Ok(fs - {p + ".tmp"}) else Err(FileNotFound)
  }

  /** convert_bedgraph_to_bigwig: the tool runs only on an existing input */
  function Convert(tools: Tools, fs: set<string>, src: string, chromSizes: string, sorted: bool): set<string> {
    if src in fs && tools.convert(src, chromSizes, sorted) then fs + {ConvertedPath(src)} else fs
  }

  /** Convert; if the bigWig is still missing, sort the input and convert once more. */
  function ConvertWithRetry(tools: Tools, fs: set<string>, src: string, chromSizes: string): (r: Result<set<string>, Failure>)
    ensures r.Ok? ==> fs - {src + ".tmp"} <= r.value <= fs + {ConvertedPath(src)}
    ensures r.Err? ==> src !in fs
  {
    var fs1 := Convert(tools, fs, src, chromSizes, false);
    if ConvertedPath(src) in fs1 then Ok(fs1)
    else
      match SortFile(fs1, src)
      case Err(f) => Err(f)
      case Ok(fs2) =>
        Ok(Convert(tools, fs2, src, chromSizes, true))
  }

  /** The genome of the first frame row with this path; IndexError when there is none */
  function GenomeOf(frame: Frame, p: string): Option<string> {
    if frame == [] then None
    else if frame[0].1.filePath == p then Some(frame[0].1.genome)
    else GenomeOf(frame[1..], p)
  }

  /** The first chrom.sizes path containing the genome name */
  function ChromSizesFor(genome: string, paths: seq<string>): Option<string> {
    if paths == [] then None
    else if Contains(paths[0], genome) then Some(paths[0])
    else ChromSizesFor(genome, paths[1..])
  }

  // --------------------------------------------------------------------
  // merge_all, step 1: make every member a bigWig
  // --------------------------------------------------------------------

  /** One member of a pair: a missing file is dropped; a bedGraph is
      converted (None when conversion fails, true when converted); any other
      file is used as it is. */
  function PrepareMember(tools: Tools, frame: Frame, chromSizes: seq<string>, fs: set<string>, p: string)
    : Result<(set<string>, Option<string>, bool), Failure>
  {
    if p !in fs then Ok((fs, None, false))
    else if Lower(SplitExt(p).1) != ".bedgraph" then Ok((fs, Some(p), false))
    else
      match GenomeOf(frame, p)
      case None => Err(IndexError)
      case Some(g) =>
        match ChromSizesFor(g, chromSizes)
        case None => Err(IndexError)
        case Some(cs) =>
          match ConvertWithRetry(tools, fs, p, cs)
          case Err(f) => Err(f)
          case Ok(fs') =>
            if ConvertedPath(p) in fs' then Ok((fs', Some(ConvertedPath(p)), true)) else Ok((fs', None, false))
  }

  /** What step 1 builds: the file system, pairs_merge and converted_idxs */
  datatype Prepared = Prepared(fs: set<string>, merges: seq<(string, string)>, converted: seq<(nat, nat)>)

  /** Step 1 for pair number idx once both members are prepared: the pair
      goes to pairs_merge when both members remain, and each converted member
      is recorded in converted_idxs. */
  function PrepareCombine(st: Prepared, idx: nat, m0: (set<string>, Option<string>, bool), m1: (set<string>, Option<string>, bool))
    : Prepared
  {
    var conv := st.converted + (if m0.2 then [(idx, 0)] else []) + (if m1.2 then [(idx, 1)] else []);
    var merges := if m0.1.Some? && m1.1.Some? then st.merges + [(m0.1.value, m1.1.value)] else st.merges;
    Prepared(m1.0, merges, conv)
  }

  /** Step 1 for pair number idx: both members go to pairs_merge, or the pair is dropped */
  function PrepareStep(tools: Tools, frame: Frame, chromSizes: seq<string>, st: Prepared, idx: nat, pair: (string, string))
    : Result<Prepared, Failure>
  {
    match PrepareMember(tools, frame, chromSizes, st.fs, pair.0)
    case Err(f) => Err(f)
    case Ok(m0) =>
      match PrepareMember(tools, frame, chromSizes, m0.0, pair.1)
      case Err(f) => Err(f)
      case Ok(m1) => Ok(PrepareCombine(st, idx, m0, m1))
  }

  function PrepareSpec(tools: Tools, frame: Frame, chromSizes: seq<string>, fs: set<string>, pairs: seq<(string, string)>, k: nat)
    : Result<Prepared, Failure>
    requires k <= |pairs|
    decreases k
  {
    if k == 0 then Ok(Prepared(fs, [], []))
    else
      match PrepareSpec(tools, frame, chromSizes, fs, pairs, k - 1)
      case Err(f) => Err(f)
      case Ok(st) => PrepareStep(tools, frame, chromSizes, st, k - 1, pairs[k - 1])
  }

  lemma {:induction false} PrepareStays(tools: Tools, frame: Frame, chromSizes: seq<string>, fs: set<string>,
                                        pairs: seq<(string, string)>, k: nat)
    requires k <= |pairs| && PrepareSpec(tools, frame, chromSizes, fs, pairs, k).Err?
    ensures PrepareSpec(tools, frame, chromSizes, fs, pairs, |pairs|) == PrepareSpec(tools, frame, chromSizes, fs, pairs, k)
    decreases |pairs| - k
  {
    if k < |pairs| {
      PrepareStays(tools, frame, chromSizes, fs, pairs, k + 1);
    }
  }

  /** The file system one pair of step 1 leaves, also when it fails: a
      failing second member keeps what the first member's conversion did. */
  function StepReached(tools: Tools, frame: Frame, chromSizes: seq<string>, st: Prepared, pair: (string, string)): set<string> {
    match PrepareMember(tools, frame, chromSizes, st.fs, pair.0)
    case Err(_) => st.fs
    case Ok(m0) =>
      match PrepareMember(tools, frame, chromSizes, m0.0, pair.1)
      case Err(_) => m0.0
      case Ok(m1) => m1.0
  }

  /** The file system step 1 has reached after the first k pairs, or at the
      pair that failed */
  function PrepareReached(tools: Tools, frame: Frame, chromSizes: seq<string>, fs: set<string>,
                         pairs: seq<(string, string)>, k: nat): set<string>
    requires k <= |pairs|
    decreases k
  {
    if k == 0 then fs
    else
      match PrepareSpec(tools, frame, chromSizes, fs, pairs, k - 1)
      case Err(_) => PrepareReached(tools, frame, chromSizes, fs, pairs, k - 1)
      case Ok(st) => StepReached(tools, frame, chromSizes, st, pairs[k - 1])
  }

  lemma {:induction false} PrepareReachedStays(tools: Tools, frame: Frame, chromSizes: seq<string>, fs: set<string>,
                                               pairs: seq<(string, string)>, k: nat)
    requires k <= |pairs| && PrepareSpec(tools, frame, chromSizes, fs, pairs, k).Err?
    ensures PrepareReached(tools, frame, chromSizes, fs, pairs, |pairs|) == PrepareReached(tools, frame, chromSizes, fs, pairs, k)
    decreases |pairs| - k
  {
    if k < |pairs| {
      PrepareReachedStays(tools, frame, chromSizes, fs, pairs, k + 1);
    }
  }

  /** Step 1 has its result and its file system once every pair is done or one fails. */
  lemma PrepareDone(tools: Tools, frame: Frame, chromSizes: seq<string>, fs: set<string>,
                    pairs: seq<(string, string)>, k: nat, r: Result<Prepared, Failure>, reached: set<string>)
    requires k <= |pairs| && (k == |pairs| || r.Err?)
    requires PrepareSpec(tools, frame, chromSizes, fs, pairs, k) == r
    requires PrepareReached(tools, frame, chromSizes, fs, pairs, k) == reached
    ensures PrepareSpec(tools, frame, chromSizes, fs, pairs, |pairs|) == r
    ensures PrepareReached(tools, frame, chromSizes, fs, pairs, |pairs|) == reached
  {
    if k < |pairs| {
      PrepareStays(tools, frame, chromSizes, fs, pairs, k);
      PrepareReachedStays(tools, frame, chromSizes, fs, pairs, k);
    }
  }

  /** Step 1 for one found pair */
  method PrepareNext(tools: Tools, frame: Frame, chromSizes: seq<string>, fs0: set<string>, pairs: seq<(string, string)>,
                     idx: nat, st: Prepared)
    returns (next: Result<Prepared, Failure>, reached: set<string>)
    requires idx < |pairs| && PrepareSpec(tools, frame, chromSizes, fs0, pairs, idx) == Ok(st)
    ensures next == PrepareSpec(tools, frame, chromSizes, fs0, pairs, idx + 1)
    ensures reached == PrepareReached(tools, frame, chromSizes, fs0, pairs, idx + 1)
  {
    var pair := pairs[idx];
    var m0 := PrepareMember(tools, frame, chromSizes, st.fs, pair.0);
    if m0.Err? {
      return Err(m0.error), st.fs;
    }
    var m1 := PrepareMember(tools, frame, chromSizes, m0.value.0, pair.1);
    if m1.Err? {
      return Err(m1.error), m0.value.0;
    }
    next := Ok(PrepareCombine(st, idx, m0.value, m1.value));
    reached := m1.value.0;
  }

  /** Step 1; `reached` is the file system it leaves, also when it fails */
  method PreparePairs(tools: Tools, frame: Frame, chromSizes: seq<string>, fs0: set<string>, pairs: seq<(string, string)>)
    returns (r: Result<Prepared, Failure>, reached: set<string>)
    ensures r == PrepareSpec(tools, frame, chromSizes, fs0, pairs, |pairs|)
    ensures reached == PrepareReached(tools, frame, chromSizes, fs0, pairs, |pairs|)
  {
    r, reached := Ok(Prepared(fs0, [], [])), fs0;
    var idx := 0;
    while idx < |pairs| && r.Ok?
      invariant 0 <= idx <= |pairs|
      invariant PrepareSpec(tools, frame, chromSizes, fs0, pairs, idx) == r
      invariant PrepareReached(tools, frame, chromSizes, fs0, pairs, idx) == reached
    {
      r, reached := PrepareNext(tools, frame, chromSizes, fs0, pairs, idx, r.value);
      idx := idx + 1;
    }
    PrepareDone(tools, frame, chromSizes, fs0, pairs, idx, r, reached);
  }

  /** What a prepared member promises: the file system gains at most the
      converted path and loses at most the sort leftover; a member reaching
      pairs_merge exists and is its own path or its converted ".bw" path. */
  predicate MemberPrepared(fs: set<string>, p: string, m: (set<string>, Option<string>, bool)) {
    && fs - {p + ".tmp"} <= m.0 <= fs + {ConvertedPath(p)}
    && (m.1.Some? ==> m.1.value in m.0 && p in fs && (m.1.value == p || (m.2 && m.1.value == ConvertedPath(p))))
    && (m.2 ==> m.1 == Some(ConvertedPath(p)))
  }

  lemma PrepareMemberFacts(tools: Tools, frame: Frame, chromSizes: seq<string>, fs: set<string>, p: string)
    requires PrepareMember(tools, frame, chromSizes, fs, p).Ok?
    ensures MemberPrepared(fs, p, PrepareMember(tools, frame, chromSizes, fs, p).value)
  {
  }

  /** A pairs_merge entry built from this found pair, member by member */
  predicate FromPair(e: (string, string), pair: (string, string)) {
    && (e.0 == pair.0 || e.0 == ConvertedPath(pair.0))
    && (e.1 == pair.1 || e.1 == ConvertedPath(pair.1))
  }

  /** What one pair of step 1 promises: new files are bigWigs, lost files
      sort leftovers, at most one entry is appended to pairs_merge, built from
      the pair, and converted_idxs gains only entries for this pair. */
  predicate StepPrepared(st: Prepared, st': Prepared, idx: nat, pair: (string, string)) {
    && (forall q :: q in st'.fs && q !in st.fs ==> EndsWith(q, ".bw"))
    && (forall q :: q in st.fs && q !in st'.fs ==> EndsWith(q, ".tmp"))
    && |st.merges| <= |st'.merges| <= |st.merges| + 1
    && st'.merges[..|st.merges|] == st.merges
    && (|st'.merges| > |st.merges| ==> FromPair(st'.merges[|st.merges|], pair))
    && (forall c :: c in st'.converted ==> c in st.converted || (c.0 == idx && c.1 < 2))
  }

  /** Two file-system changes, each gaining at most one bigWig and losing at
      most one sort leftover, gain only bigWigs and lose only sort leftovers. */
  lemma FilesChanged(fs: set<string>, fs1: set<string>, fs2: set<string>, lost0: string, lost1: string, new0: string, new1: string)
    requires fs - {lost0} <= fs1 <= fs + {new0} && fs1 - {lost1} <= fs2 <= fs1 + {new1}
    requires EndsWith(lost0, ".tmp") && EndsWith(lost1, ".tmp") && EndsWith(new0, ".bw") && EndsWith(new1, ".bw")
    ensures forall q :: q in fs2 && q !in fs ==> EndsWith(q, ".bw")
    ensures forall q :: q in fs && q !in fs2 ==> EndsWith(q, ".tmp")
  {
    forall q | q in fs2 && q !in fs ensures EndsWith(q, ".bw") {
      assert q == new0 || q == new1;
    }
    forall q | q in fs && q !in fs2 ensures EndsWith(q, ".tmp") {
      assert q == lost0 || q == lost1;
    }
  }

  lemma PrepareCombineFacts(st: Prepared, idx: nat, pair: (string, string),
                            m0: (set<string>, Option<string>, bool), m1: (set<string>, Option<string>, bool))
    requires MemberPrepared(st.fs, pair.0, m0) && MemberPrepared(m0.0, pair.1, m1)
    ensures StepPrepared(st, PrepareCombine(st, idx, m0, m1), idx, pair)
  {
    var st' := PrepareCombine(st, idx, m0, m1);
    assert (forall q :: q in st'.fs && q !in st.fs ==> EndsWith(q, ".bw"))
        && (forall q :: q in st.fs && q !in st'.fs ==> EndsWith(q, ".tmp")) by {
      ConvertedPathIdempotent(pair.0);
      ConvertedPathIdempotent(pair.1);
      assert EndsWith(pair.0 + ".tmp", ".tmp") && EndsWith(pair.1 + ".tmp", ".tmp");
      FilesChanged(st.fs, m0.0, m1.0, pair.0 + ".tmp", pair.1 + ".tmp", ConvertedPath(pair.0), ConvertedPath(pair.1));
    }
    CombineMerges(st, idx, pair, m0, m1);
  }

  /** The pair adds at most one pairs_merge entry, built from its members. */
  lemma CombineMerges(st: Prepared, idx: nat, pair: (string, string),
                      m0: (set<string>, Option<string>, bool), m1: (set<string>, Option<string>, bool))
    requires MemberPrepared(st.fs, pair.0, m0) && MemberPrepared(m0.0, pair.1, m1)
    ensures var merges := PrepareCombine(st, idx, m0, m1).merges;
      && |st.merges| <= |merges| <= |st.merges| + 1
      && merges[..|st.merges|] == st.merges
      && (|merges| > |st.merges| ==> FromPair(merges[|st.merges|], pair))
  {
    var merges := PrepareCombine(st, idx, m0, m1).merges;
    if m0.1.Some? && m1.1.Some? {
      assert merges == st.merges + [(m0.1.value, m1.1.value)];
      assert merges[..|st.merges|] == st.merges;
    }
  }

  /** One pair of step 1 */
  lemma PrepareStepFacts(tools: Tools, frame: Frame, chromSizes: seq<string>, st: Prepared, idx: nat, pair: (string, string))
    requires PrepareStep(tools, frame, chromSizes, st, idx, pair).Ok?
    ensures StepPrepared(st, PrepareStep(tools, frame, chromSizes, st, idx, pair).value, idx, pair)
  {
    PrepareMemberFacts(tools, frame, chromSizes, st.fs, pair.0);
    var m0 := PrepareMember(tools, frame, chromSizes, st.fs, pair.0).value;
    PrepareMemberFacts(tools, frame, chromSizes, m0.0, pair.1);
    var m1 := PrepareMember(tools, frame, chromSizes, m0.0, pair.1).value;
    PrepareCombineFacts(st, idx, pair, m0, m1);
  }

  /** After the first k pairs of step 1: the only new files are bigWigs and
      the only lost files sort leftovers; pairs_merge holds at most one entry
      per found pair, each member the pair's member in the same position or
      its converted path; converted_idxs names pair numbers and positions 0 or 1. */
  predicate PreparedSoFar(fs: set<string>, pairs: seq<(string, string)>, k: nat, st: Prepared)
    requires k <= |pairs|
  {
    && (forall q :: q in st.fs && q !in fs ==> EndsWith(q, ".bw"))
    && (forall q :: q in fs && q !in st.fs ==> EndsWith(q, ".tmp"))
    && |st.merges| <= k
    && (forall m :: 0 <= m < |st.merges| ==> exists idx :: 0 <= idx < k && FromPair(st.merges[m], pairs[idx]))
    && (forall c :: c in st.converted ==> c.0 < k && c.1 < 2)
  }

  lemma PreparedGrows(fs: set<string>, pairs: seq<(string, string)>, k: nat, st: Prepared, st': Prepared)
    requires k < |pairs| && PreparedSoFar(fs, pairs, k, st) && StepPrepared(st, st', k, pairs[k])
    ensures PreparedSoFar(fs, pairs, k + 1, st')
  {
    forall m | 0 <= m < |st'.merges| ensures exists idx :: 0 <= idx < k + 1 && FromPair(st'.merges[m], pairs[idx]) {
      if m < |st.merges| {
        assert st'.merges[m] == st.merges[m];
        var idx :| 0 <= idx < k && FromPair(st.merges[m], pairs[idx]);
      } else {
        assert FromPair(st'.merges[m], pairs[k]);
      }
    }
  }

  lemma {:induction false} PrepareFacts(tools: Tools, frame: Frame, chromSizes: seq<string>, fs: set<string>,
                                        pairs: seq<(string, string)>, k: nat)
    requires k <= |pairs| && PrepareSpec(tools, frame, chromSizes, fs, pairs, k).Ok?
    ensures PreparedSoFar(fs, pairs, k, PrepareSpec(tools, frame, chromSizes, fs, pairs, k).value)
    decreases k
  {
    if k > 0 {
      PrepareFacts(tools, frame, chromSizes, fs, pairs, k - 1);
      var st := PrepareSpec(tools, frame, chromSizes, fs, pairs, k - 1).value;
      PrepareStepFacts(tools, frame, chromSizes, st, k - 1, pairs[k - 1]);
      PreparedGrows(fs, pairs, k - 1, st, PrepareSpec(tools, frame, chromSizes, fs, pairs, k).value);
    }
  }

  /** The only files gained are bigWigs and the only files lost sort leftovers. */
  predicate ChangedByPreparing(fs: set<string>, fs': set<string>) {
    && (forall q :: q in fs' && q !in fs ==> EndsWith(q, ".bw"))
    && (forall q :: q in fs && q !in fs' ==> EndsWith(q, ".tmp"))
  }

  lemma MemberChanges(fs0: set<string>, fs: set<string>, p: string, m: (set<string>, Option<string>, bool))
    requires ChangedByPreparing(fs0, fs) && MemberPrepared(fs, p, m)
    ensures ChangedByPreparing(fs0, m.0)
  {
    ConvertedPathIdempotent(p);
    assert EndsWith(p + ".tmp", ".tmp");
  }

  /** However step 1 ends, it gains only bigWigs and loses only sort leftovers. */
  lemma {:induction false} PrepareReachedFrame(tools: Tools, frame: Frame, chromSizes: seq<string>, fs: set<string>,
                                               pairs: seq<(string, string)>, k: nat)
    requires k <= |pairs|
    ensures ChangedByPreparing(fs, PrepareReached(tools, frame, chromSizes, fs, pairs, k))
    decreases k
  {
    if k > 0 {
      var pre := PrepareSpec(tools, frame, chromSizes, fs, pairs, k - 1);
      if pre.Err? {
        PrepareReachedFrame(tools, frame, chromSizes, fs, pairs, k - 1);
      } else {
        PrepareFacts(tools, frame, chromSizes, fs, pairs, k - 1);
        var st := pre.value;
        var pair := pairs[k - 1];
        var m0 := PrepareMember(tools, frame, chromSizes, st.fs, pair.0);
        if m0.Ok? {
          PrepareMemberFacts(tools, frame, chromSizes, st.fs, pair.0);
          MemberChanges(fs, st.fs, pair.0, m0.value);
          var m1 := PrepareMember(tools, frame, chromSizes, m0.value.0, pair.1);
          if m1.Ok? {
            PrepareMemberFacts(tools, frame, chromSizes, m0.value.0, pair.1);
            MemberChanges(fs, m0.value.0, pair.1, m1.value);
          }
        }
      }
    }
  }

  /** A finished step 1 reaches the file system of its result. */
  lemma PrepareReachedOk(tools: Tools, frame: Frame, chromSizes: seq<string>, fs: set<string>,
                         pairs: seq<(string, string)>, k: nat)
    requires k <= |pairs| && PrepareSpec(tools, frame, chromSizes, fs, pairs, k).Ok?
    ensures PrepareReached(tools, frame, chromSizes, fs, pairs, k) == PrepareSpec(tools, frame, chromSizes, fs, pairs, k).value.fs
  {
  }

  // --------------------------------------------------------------------
  // merge_all, step 2: merge
  // --------------------------------------------------------------------

  /** merge_pair on one entry of pairs_merge; the merged path is kept when it exists afterwards. */
  function MergeStep(tools: Tools, acc: (set<string>, seq<string>), pair: (string, string)): (set<string>, seq<string>) {
    var out := MergedPath(pair.0);
    var fs := if pair.0 in acc.0 && pair.1 in acc.0 && tools.merge(pair.0, pair.1) then acc.0 + {out} else acc.0;
    (fs, if out in fs then acc.1 + [out] else acc.1)
  }

  function MergeSpec(tools: Tools, fs: set<string>, merges: seq<(string, string)>): (set<string>, seq<string>)
    decreases |merges|
  {
    if merges == [] then (fs, [])
    else MergeStep(tools, MergeSpec(tools, fs, merges[..|merges| - 1]), merges[|merges| - 1])
  }

  method MergePairs(tools: Tools, fs0: set<string>, merges: seq<(string, string)>) returns (fs: set<string>, merged: seq<string>)
    ensures (fs, merged) == MergeSpec(tools, fs0, merges)
  {
    fs := fs0;
    merged := [];
    var idx := 0;
    while idx < |merges|
      invariant 0 <= idx <= |merges|
      invariant (fs, merged) == MergeSpec(tools, fs0, merges[..idx])
    {
      assert merges[..idx + 1][..idx] == merges[..idx];
      var pair := merges[idx];
      var out := MergedPath(pair.0);
      if pair.0 in fs && pair.1 in fs && tools.merge(pair.0, pair.1) {
        fs := fs + {out};
      }
      if out in fs {
        merged := merged + [out];
      }
      idx := idx + 1;
    }
    assert merges[..idx] == merges;
  }

  /** Every merged file exists and is the merged path of an entry of
      pairs_merge, in order, at most one per entry. */
  lemma {:induction false} MergeFacts(tools: Tools, fs: set<string>, merges: seq<(string, string)>)
    ensures var r := MergeSpec(tools, fs, merges);
      && fs <= r.0
      && |r.1| <= |merges|
      && forall m :: m in r.1 ==> m in r.0 && exists e :: e in merges && m == MergedPath(e.0)
    decreases |merges|
  {
    if merges != [] {
      var pre := merges[..|merges| - 1];
      MergeFacts(tools, fs, pre);
      forall e | e in pre ensures e in merges { }
    }
  }

  // --------------------------------------------------------------------
  // merge_all, step 3: convert the merged files
  // --------------------------------------------------------------------

  /** Merged bedGraphs are converted when bedgraph is not allowed but bigwig or bw is. */
  predicate ConvertMerged(formats: seq<string>) {
    var lower := seq(|formats|, i requires 0 <= i < |formats| => Lower(formats[i]));
    "bedgraph" !in lower && ("bigwig" in lower || "bw" in lower)
  }

  /** Converting merged file j: the genome comes from pairs[j] (not from the
      pair the file was merged from). */
  function ConvertMergedStep(tools: Tools, frame: Frame, chromSizes: seq<string>, pairs: seq<(string, string)>,
                             acc: (set<string>, seq<string>), j: nat, file: string)
    : Result<(set<string>, seq<string>), Failure>
  {
    if j >= |pairs| then Err(IndexError)
    else
      match GenomeOf(frame, pairs[j].0)
      case None => Err(IndexError)
      case Some(g) =>
        match ChromSizesFor(g, chromSizes)
        case None => Err(IndexError)
        case Some(cs) =>
          match ConvertWithRetry(tools, acc.0, file, cs)
          case Err(f) => Err(f)
          case Ok(fs') => Ok((fs', if ConvertedPath(file) in fs' then acc.1 + [ConvertedPath(file)] else acc.1))
  }

  /** Step 3 over merged files 0 .. k-1: the file system and tmp_paths */
  function ConvertMergedSpec(tools: Tools, frame: Frame, chromSizes: seq<string>, pairs: seq<(string, string)>,
                             fs: set<string>, merged: seq<string>, k: nat): Result<(set<string>, seq<string>), Failure>
    requires k <= |merged|
    decreases k
  {
    if k == 0 then Ok((fs, []))
    else
      match ConvertMergedSpec(tools, frame, chromSizes, pairs, fs, merged, k - 1)
      case Err(f) => Err(f)
      case Ok(acc) => ConvertMergedStep(tools, frame, chromSizes, pairs, acc, k - 1, merged[k - 1])
  }

  lemma {:induction false} ConvertMergedStays(tools: Tools, frame: Frame, chromSizes: seq<string>, pairs: seq<(string, string)>,
                                              fs: set<string>, merged: seq<string>, k: nat)
    requires k <= |merged| && ConvertMergedSpec(tools, frame, chromSizes, pairs, fs, merged, k).Err?
    ensures ConvertMergedSpec(tools, frame, chromSizes, pairs, fs, merged, |merged|)
         == ConvertMergedSpec(tools, frame, chromSizes, pairs, fs, merged, k)
    decreases |merged| - k
  {
    if k < |merged| {
      ConvertMergedStays(tools, frame, chromSizes, pairs, fs, merged, k + 1);
    }
  }

  /** The file system step 3 has reached after merged files 0 .. k-1, or
      at the file that failed (whose failures all come before any conversion) */
  function ConvertReached(tools: Tools, frame: Frame, chromSizes: seq<string>, pairs: seq<(string, string)>,
                          fs: set<string>, merged: seq<string>, k: nat): set<string>
    requires k <= |merged|
    decreases k
  {
    if k == 0 then fs
    else
      match ConvertMergedSpec(tools, frame, chromSizes, pairs, fs, merged, k - 1)
      case Err(_) => ConvertReached(tools, frame, chromSizes, pairs, fs, merged, k - 1)
      case Ok(acc) =>
        match ConvertMergedStep(tools, frame, chromSizes, pairs, acc, k - 1, merged[k - 1])
        case Err(_) => acc.0
        case Ok(next) => next.0
  }

  lemma {:induction false} ConvertReachedStays(tools: Tools, frame: Frame, chromSizes: seq<string>, pairs: seq<(string, string)>,
                                               fs: set<string>, merged: seq<string>, k: nat)
    requires k <= |merged| && ConvertMergedSpec(tools, frame, chromSizes, pairs, fs, merged, k).Err?
    ensures ConvertReached(tools, frame, chromSizes, pairs, fs, merged, |merged|)
         == ConvertReached(tools, frame, chromSizes, pairs, fs, merged, k)
    decreases |merged| - k
  {
    if k < |merged| {
      ConvertReachedStays(tools, frame, chromSizes, pairs, fs, merged, k + 1);
    }
  }

  /** Step 3: every merged bedGraph becomes an old file whether or not it
      converts; `reached` is the file system it leaves, also when it fails. */
  method ConvertMergedFiles(tools: Tools, frame: Frame, chromSizes: seq<string>, pairs: seq<(string, string)>,
                            fs0: set<string>, merged: seq<string>)
    returns (r: Result<(set<string>, seq<string>), Failure>, oldFiles: seq<string>, reached: set<string>)
    ensures r == ConvertMergedSpec(tools, frame, chromSizes, pairs, fs0, merged, |merged|)
    ensures r.Ok? ==> oldFiles == merged
    ensures reached == ConvertReached(tools, frame, chromSizes, pairs, fs0, merged, |merged|)
  {
    var fs := fs0;
    var tmpPaths: seq<string> := [];
    oldFiles := [];
    var j := 0;
    while j < |merged|
      invariant 0 <= j <= |merged|
      invariant ConvertMergedSpec(tools, frame, chromSizes, pairs, fs0, merged, j) == Ok((fs, tmpPaths))
      invariant ConvertReached(tools, frame, chromSizes, pairs, fs0, merged, j) == fs
      invariant oldFiles == merged[..j]
    {
      var next := ConvertMergedStep(tools, frame, chromSizes, pairs, (fs, tmpPaths), j, merged[j]);
      if next.Err? {
        ConvertMergedStays(tools, frame, chromSizes, pairs, fs0, merged, j + 1);
        ConvertReachedStays(tools, frame, chromSizes, pairs, fs0, merged, j + 1);
        return Err(next.error), oldFiles, fs;
      }
      fs, tmpPaths := next.value.0, next.value.1;
      assert merged[..j + 1] == merged[..j] + [merged[j]];
      oldFiles := oldFiles + [merged[j]];
      j := j + 1;
    }
    assert merged[..j] == merged;
    return Ok((fs, tmpPaths)), oldFiles, fs;
  }

  /** The converted merged files are the ".bw" paths of merged files, at most
      one each; besides them only sort leftovers change. */
  lemma {:induction false} ConvertMergedFacts(tools: Tools, frame: Frame, chromSizes: seq<string>, pairs: seq<(string, string)>,
                                              fs: set<string>, merged: seq<string>, k: nat)
    requires k <= |merged| && ConvertMergedSpec(tools, frame, chromSizes, pairs, fs, merged, k).Ok?
    ensures var r := ConvertMergedSpec(tools, frame, chromSizes, pairs, fs, merged, k).value;
      && (forall q :: q in r.0 && q !in fs ==> exists j :: 0 <= j < k && q == ConvertedPath(merged[j]))
      && (forall q :: q in fs && q !in r.0 ==> EndsWith(q, ".tmp"))
      && |r.1| <= k
      && forall b :: b in r.1 ==> exists j :: 0 <= j < k && b == ConvertedPath(merged[j])
    decreases k
  {
    if k > 0 {
      ConvertMergedFacts(tools, frame, chromSizes, pairs, fs, merged, k - 1);
      assert EndsWith(merged[k - 1] + ".tmp", ".tmp");
    }
  }

  /** However step 3 ends, the only new files are ".bw" paths of merged
      files and the only lost files sort leftovers; a finished step 3 reaches
      the file system of its result. */
  lemma {:induction false} ConvertReachedFrame(tools: Tools, frame: Frame, chromSizes: seq<string>, pairs: seq<(string, string)>,
                                               fs: set<string>, merged: seq<string>, k: nat)
    requires k <= |merged|
    ensures var r := ConvertReached(tools, frame, chromSizes, pairs, fs, merged, k);
      && (forall q :: q in r && q !in fs ==> exists j :: 0 <= j < k && q == ConvertedPath(merged[j]))
      && (forall q :: q in fs && q !in r ==> EndsWith(q, ".tmp"))
      && (ConvertMergedSpec(tools, frame, chromSizes, pairs, fs, merged, k).Ok? ==>
            r == ConvertMergedSpec(tools, frame, chromSizes, pairs, fs, merged, k).value.0)
    decreases k
  {
    if k > 0 {
      var pre := ConvertMergedSpec(tools, frame, chromSizes, pairs, fs, merged, k - 1);
      if pre.Err? {
        ConvertReachedFrame(tools, frame, chromSizes, pairs, fs, merged, k - 1);
      } else {
        ConvertMergedFacts(tools, frame, chromSizes, pairs, fs, merged, k - 1);
        if ConvertMergedSpec(tools, frame, chromSizes, pairs, fs, merged, k).Ok? {
          ConvertMergedFacts(tools, frame, chromSizes, pairs, fs, merged, k);
        }
      }
    }
  }

  /** Step 3 cannot index past the found pairs: there are never more merged
      files than pairs. */
  lemma ConvertMergedInRange(tools: Tools, frame: Frame, chromSizes: seq<string>, pairs: seq<(string, string)>,
                             fs: set<string>, merged: seq<string>, k: nat)
    requires |merged| <= |pairs| && k <= |merged|
    ensures ConvertMergedSpec(tools, frame, chromSizes, pairs, fs, merged, k) != Err(IndexError) ||
            exists j :: 0 <= j < k && (GenomeOf(frame, pairs[j].0).None? ||
                                       ChromSizesFor(GenomeOf(frame, pairs[j].0).value, chromSizes).None?)
    decreases k
  {
    if k > 0 {
      ConvertMergedInRange(tools, frame, chromSizes, pairs, fs, merged, k - 1);
    }
  }

  // --------------------------------------------------------------------
  // merge_all, step 4: delete
  // --------------------------------------------------------------------

  function DeleteAll(fs: set<string>, paths: seq<string>): (r: set<string>)
    ensures r == fs - set p | p in paths
    decreases |paths|
  {
    if paths == [] then fs
    else
      var pre := paths[..|paths| - 1];
      assert (set p | p in paths) == (set p | p in pre) + {paths[|paths| - 1]} by {
        assert paths == pre + [paths[|paths| - 1]];
      }
      DeleteFile(DeleteAll(fs, pre), paths[|paths| - 1])
  }

  /** Every member of every found pair, in order */
  function Members(pairs: seq<(string, string)>): (r: seq<string>)
    ensures forall p :: p in r <==> exists e :: e in pairs && (p == e.0 || p == e.1)
    decreases |pairs|
  {
    if pairs == [] then []
    else
      var pre := pairs[..|pairs| - 1];
      var last := pairs[|pairs| - 1];
      assert forall e :: e in pairs <==> e in pre || e == last by { assert pairs == pre + [last]; }
      Members(pre) + [last.0, last.1]
  }

  /** The converted pair members, looked up by converted_idxs in pairs_merge
      (whose numbering differs from that of pairs once a pair was dropped) */
  function ConvertedMembers(merges: seq<(string, string)>, converted: seq<(nat, nat)>): (r: Result<seq<string>, Failure>)
    ensures r.Ok? <==> forall c :: c in converted ==> c.0 < |merges|
    ensures r.Err? ==> r == Err(IndexError)
    decreases |converted|
  {
    if converted == [] then Ok([])
    else
      var pre := converted[..|converted| - 1];
      var c := converted[|converted| - 1];
      assert forall x :: x in converted <==> x in pre || x == c by { assert converted == pre + [c]; }
      match ConvertedMembers(merges, pre)
      case Err(f) => Err(f)
      case Ok(ps) =>
        if c.0 >= |merges| then Err(IndexError)
        else Ok(ps + [if c.1 == 0 then merges[c.0].0 else merges[c.0].1])
  }

  /** Step 4: old files, then every pair member, then the converted members */
  function DeleteSpec(fs: set<string>, oldFiles: seq<string>, pairs: seq<(string, string)>, merges: seq<(string, string)>,
                      converted: seq<(nat, nat)>): Result<set<string>, Failure>
  {
    var fs1 := DeleteAll(DeleteAll(fs, oldFiles), Members(pairs));
    match ConvertedMembers(merges, converted)
    case Err(f) => Err(f)
    case Ok(conv) => Ok(DeleteAll(fs1, conv))
  }

  /** The number of converted_idxs entries before the first one that indexes
      past pairs_merge */
  function InRangeCount(merges: seq<(string, string)>, converted: seq<(nat, nat)>): (n: nat)
    ensures n <= |converted|
    ensures forall i :: 0 <= i < n ==> converted[i].0 < |merges|
    ensures n < |converted| ==> converted[n].0 >= |merges|
    decreases |converted|
  {
    if converted == [] || converted[0].0 >= |merges| then 0
    else 1 + InRangeCount(merges, converted[1..])
  }

  /** Step 4 up to its failure: the old files, every pair member, and the
      converted members looked up before the first entry that indexes past
      pairs_merge are deleted one by one. */
  function DeleteReached(fs: set<string>, oldFiles: seq<string>, pairs: seq<(string, string)>, merges: seq<(string, string)>,
                         converted: seq<(nat, nat)>): set<string>
  {
    var n := InRangeCount(merges, converted);
    assert forall c :: c in converted[..n] ==> c.0 < |merges| by {
      forall c | c in converted[..n] ensures c.0 < |merges| {
        var i :| 0 <= i < n && converted[..n][i] == c;
      }
    }
    DeleteAll(DeleteAll(DeleteAll(fs, oldFiles), Members(pairs)), ConvertedMembers(merges, converted[..n]).value)
  }

  /** A finished step 4 reaches its result; however it ends, it adds nothing
      and removes every old file and every pair member. */
  lemma DeleteReachedFacts(fs: set<string>, oldFiles: seq<string>, pairs: seq<(string, string)>, merges: seq<(string, string)>,
                           converted: seq<(nat, nat)>)
    ensures var r := DeleteReached(fs, oldFiles, pairs, merges, converted);
      && r <= fs
      && (forall p :: p in oldFiles ==> p !in r)
      && (forall e :: e in pairs ==> e.0 !in r && e.1 !in r)
      && (DeleteSpec(fs, oldFiles, pairs, merges, converted).Ok? ==> r == DeleteSpec(fs, oldFiles, pairs, merges, converted).value)
  {
    forall e | e in pairs ensures e.0 in Members(pairs) && e.1 in Members(pairs) { }
    var n := InRangeCount(merges, converted);
    if DeleteSpec(fs, oldFiles, pairs, merges, converted).Ok? {
      if n < |converted| {
        assert false;
      }
      assert converted[..n] == converted;
    }
  }

  /** The converted_idxs slip: with pairs (a1, a2) and (b1, b2), a2 missing and
      b1 converted, converted_idxs is [[1, 0]] while pairs_merge has one entry.
      Step 4 has then deleted every pair member when it raises IndexError. */
  lemma DeleteSlipExample(fs: set<string>, a1: string, a2: string, b1: string, b2: string, e: (string, string))
    ensures DeleteSpec(fs, [], [(a1, a2), (b1, b2)], [e], [(1, 0)]) == Err(IndexError)
    ensures DeleteReached(fs, [], [(a1, a2), (b1, b2)], [e], [(1, 0)]) == fs - {a1, a2, b1, b2}
  {
    var pairs := [(a1, a2), (b1, b2)];
    assert (1, 0) in [(1, 0)];
    assert InRangeCount([e], [(1, 0)]) == 0;
    assert [(1, 0)][..0] == [];
    assert (set p | p in Members(pairs)) == {a1, a2, b1, b2};
  }

  // --------------------------------------------------------------------
  // merge_all, step 5: new linkage table rows
  // --------------------------------------------------------------------

  /** The frame rows with this path */
  function RowsWithPath(frame: Frame, p: string): (r: seq<LinkRow>)
    ensures forall x :: x in r ==> x.filePath == p
    decreases |frame|
  {
    if frame == [] then []
    else (if frame[0].1.filePath == p then [frame[0].1] else []) + RowsWithPath(frame[1..], p)
  }

  /** The rows for merged file m: copies of the rows of pairs[m][0] with the
      new file_path and filename */
  function NewRows(frame: Frame, pairs: seq<(string, string)>, merged: seq<string>, m: nat): Result<seq<LinkRow>, Failure>
    requires m <= |merged|
    decreases m
  {
    if m == 0 then Ok([])
    else
      match NewRows(frame, pairs, merged, m - 1)
      case Err(f) => Err(f)
      case Ok(rows) =>
        if m - 1 >= |pairs| then Err(IndexError)
        else
          Ok(rows + Relabelled(RowsWithPath(frame, pairs[m - 1].0), merged[m - 1]))
  }

  /** Copies of rows with file_path set to file and filename to its basename */
  function Relabelled(src: seq<LinkRow>, file: string): seq<LinkRow> {
    seq(|src|, i requires 0 <= i < |src| => src[i].(filePath := file, filename := Basename(file)))
  }

  /** Paths are unique in the frame */
  predicate UniquePaths(frame: Frame) {
    forall a, b :: 0 <= a < b < |frame| ==> frame[a].1.filePath != frame[b].1.filePath
  }

  lemma {:induction false} RowsWithPathUnique(frame: Frame, p: string)
    requires UniquePaths(frame)
    requires exists k :: 0 <= k < |frame| && frame[k].1.filePath == p
    ensures |RowsWithPath(frame, p)| == 1
    decreases |frame|
  {
    var k :| 0 <= k < |frame| && frame[k].1.filePath == p;
    var rest := frame[1..];
    assert UniquePaths(rest) by {
      forall a, b | 0 <= a < b < |rest| ensures rest[a].1.filePath != rest[b].1.filePath {
        assert rest[a] == frame[a + 1] && rest[b] == frame[b + 1];
      }
    }
    if k == 0 {
      assert |RowsWithPath(rest, p)| == 0 by {
        RowsWithPathAbsent(rest, p);
      }
    } else {
      assert rest[k - 1] == frame[k];
      RowsWithPathUnique(rest, p);
    }
  }

  lemma {:induction false} RowsWithPathAbsent(frame: Frame, p: string)
    requires forall k :: 0 <= k < |frame| ==> frame[k].1.filePath != p
    ensures RowsWithPath(frame, p) == []
    decreases |frame|
  {
    if frame != [] {
      assert forall k :: 0 <= k < |frame[1..]| ==> frame[1..][k] == frame[k + 1];
      RowsWithPathAbsent(frame[1..], p);
    }
  }

  predicate FirstMembersInFrame(frame: Frame, pairs: seq<(string, string)>) {
    forall i :: 0 <= i < |pairs| ==> exists k :: 0 <= k < |frame| && frame[k].1.filePath == pairs[i].0
  }

  /** Merged file m - 1 whose first member has exactly one row adds one row */
  lemma NewRowsSingle(frame: Frame, pairs: seq<(string, string)>, merged: seq<string>, m: nat)
    requires 0 < m <= |merged| && m <= |pairs|
    requires NewRows(frame, pairs, merged, m - 1).Ok? && |RowsWithPath(frame, pairs[m - 1].0)| == 1
    ensures NewRows(frame, pairs, merged, m)
         == Ok(NewRows(frame, pairs, merged, m - 1).value
               + [RowsWithPath(frame, pairs[m - 1].0)[0].(filePath := merged[m - 1], filename := Basename(merged[m - 1]))])
  {
    var src := RowsWithPath(frame, pairs[m - 1].0);
    assert Relabelled(src, merged[m - 1]) == [src[0].(filePath := merged[m - 1], filename := Basename(merged[m - 1]))];
  }

  /** When every first member has exactly one row, each merged file gets
      that row with the merged path and its basename. */
  lemma {:induction false} NewRowsSingles(frame: Frame, pairs: seq<(string, string)>, merged: seq<string>, m: nat)
    requires m <= |merged| <= |pairs|
    requires forall i :: 0 <= i < |pairs| ==> |RowsWithPath(frame, pairs[i].0)| == 1
    ensures NewRows(frame, pairs, merged, m).Ok?
    ensures var rows := NewRows(frame, pairs, merged, m).value;
      && |rows| == m
      && forall i :: 0 <= i < m ==>
           rows[i] == RowsWithPath(frame, pairs[i].0)[0].(filePath := merged[i], filename := Basename(merged[i]))
    decreases m
  {
    if m > 0 {
      NewRowsSingles(frame, pairs, merged, m - 1);
      NewRowsSingle(frame, pairs, merged, m);
      SinglesSnoc(frame, pairs, merged, m, NewRows(frame, pairs, merged, m - 1).value, NewRows(frame, pairs, merged, m).value);
    }
  }

  /** The step of NewRowsSingles, on the row lists alone */
  lemma SinglesSnoc(frame: Frame, pairs: seq<(string, string)>, merged: seq<string>, m: nat, rows0: seq<LinkRow>, rows: seq<LinkRow>)
    requires 0 < m <= |merged| <= |pairs|
    requires forall i :: 0 <= i < |pairs| ==> |RowsWithPath(frame, pairs[i].0)| == 1
    requires |rows0| == m - 1
    requires forall i :: 0 <= i < m - 1 ==>
               rows0[i] == RowsWithPath(frame, pairs[i].0)[0].(filePath := merged[i], filename := Basename(merged[i]))
    requires rows == rows0 + [RowsWithPath(frame, pairs[m - 1].0)[0].(filePath := merged[m - 1], filename := Basename(merged[m - 1]))]
    ensures |rows| == m
    ensures forall i :: 0 <= i < m ==>
              rows[i] == RowsWithPath(frame, pairs[i].0)[0].(filePath := merged[i], filename := Basename(merged[i]))
  {
    forall i | 0 <= i < m
      ensures rows[i] == RowsWithPath(frame, pairs[i].0)[0].(filePath := merged[i], filename := Basename(merged[i]))
    {
      if i < m - 1 {
        assert rows[i] == rows0[i];
      }
    }
  }

  /** With unique paths and the first members taken from the frame, each
      merged file gets exactly one row: the row of pairs[m][0] with the merged
      path and its basename. */
  lemma NewRowsOnePerFile(frame: Frame, pairs: seq<(string, string)>, merged: seq<string>, m: nat)
    requires m <= |merged| <= |pairs| && UniquePaths(frame)
    requires FirstMembersInFrame(frame, pairs)
    ensures NewRows(frame, pairs, merged, m).Ok?
    ensures var rows := NewRows(frame, pairs, merged, m).value;
      && |rows| == m
      && forall i :: 0 <= i < m ==>
           |RowsWithPath(frame, pairs[i].0)| == 1 &&
           rows[i] == RowsWithPath(frame, pairs[i].0)[0].(filePath := merged[i], filename := Basename(merged[i]))
  {
    forall i | 0 <= i < |pairs| ensures |RowsWithPath(frame, pairs[i].0)| == 1 {
      RowsWithPathUnique(frame, pairs[i].0);
    }
    NewRowsSingles(frame, pairs, merged, m);
  }

  // --------------------------------------------------------------------
  // merge_all
  // --------------------------------------------------------------------

  /** How merge_all ends: the file system it leaves, the rows it appends to
      the linkage table, and the error that stopped it, if any */
  datatype MergeRun = MergeRun(fs: set<string>, rows: seq<LinkRow>, failure: Option<Failure>)

  /** merge_all: a missing table is FileNotFound; an error in a later step
      keeps the files of the steps before it, and appends no row. */
  function MergeAllSpec(tools: Tools, fs: set<string>, table: Option<Table>, chromSizes: seq<string>, formats: seq<string>)
    : MergeRun
  {
    match table
    case None => MergeRun(fs, [], Some(FileNotFound))
    case Some(t) =>
      var frame := ReadFrame(t.rows);
      match FindPairsSpec(frame, t.hasChromosome)
      case Err(f) => MergeRun(fs, [], Some(f))
      case Ok(pairs) =>
        if pairs == [] then MergeRun(fs, [], None)
        else
          match PrepareSpec(tools, frame, chromSizes, fs, pairs, |pairs|)
          case Err(f) => MergeRun(PrepareReached(tools, frame, chromSizes, fs, pairs, |pairs|), [], Some(f))
          case Ok(st) =>
            var merge := MergeSpec(tools, st.fs, st.merges);
            var conv := if ConvertMerged(formats)
                        then ConvertMergedSpec(tools, frame, chromSizes, pairs, merge.0, merge.1, |merge.1|)
                        else Ok(merge);
            match conv
            case Err(f) => MergeRun(ConvertReached(tools, frame, chromSizes, pairs, merge.0, merge.1, |merge.1|), [], Some(f))
            case Ok(c) =>
              var oldFiles := if ConvertMerged(formats) then merge.1 else [];
              match DeleteSpec(c.0, oldFiles, pairs, st.merges, st.converted)
              case Err(f) => MergeRun(DeleteReached(c.0, oldFiles, pairs, st.merges, st.converted), [], Some(f))
              case Ok(fs') =>
                match NewRows(frame, pairs, c.1, |c.1|)
                case Err(f) => MergeRun(fs', [], Some(f))
                case Ok(rows) => MergeRun(fs', rows, None)
  }

  method MergeAll(tools: Tools, fs: set<string>, table: Option<Table>, chromSizes: seq<string>, formats: seq<string>)
    returns (r: MergeRun)
    ensures r == MergeAllSpec(tools, fs, table, chromSizes, formats)
  {
    if table.None? {
      return MergeRun(fs, [], Some(FileNotFound));
    }
    var t := table.value;
    var frame := ReadFrame(t.rows);
    var found := FindPairs(frame, t.hasChromosome);
    if found.Err? {
      return MergeRun(fs, [], Some(found.error));
    }
    var pairs := found.value;
    if pairs == [] {
      return MergeRun(fs, [], None);
    }
    var prepared, reached := PreparePairs(tools, frame, chromSizes, fs, pairs);
    if prepared.Err? {
      return MergeRun(reached, [], Some(prepared.error));
    }
    var st := prepared.value;
    var fs1, merged := MergePairs(tools, st.fs, st.merges);
    var oldFiles: seq<string> := [];
    if ConvertMerged(formats) {
      var conv;
      conv, oldFiles, reached := ConvertMergedFiles(tools, frame, chromSizes, pairs, fs1, merged);
      if conv.Err? {
        return MergeRun(reached, [], Some(conv.error));
      }
      fs1, merged := conv.value.0, conv.value.1;
    }
    var fs2 := DeleteReached(fs1, oldFiles, pairs, st.merges, st.converted);
    DeleteReachedFacts(fs1, oldFiles, pairs, st.merges, st.converted);
    var conv := ConvertedMembers(st.merges, st.converted);
    if conv.Err? {
      return MergeRun(fs2, [], Some(conv.error));
    }
    var rows := NewRows(frame, pairs, merged, |merged|);
    if rows.Err? {
      return MergeRun(fs2, [], Some(rows.error));
    }
    return MergeRun(fs2, rows.value, None);
  }

  /** Step 4 leaves no old file, no pair member and no converted member. */
  lemma DeleteSpecFacts(fs: set<string>, oldFiles: seq<string>, pairs: seq<(string, string)>, merges: seq<(string, string)>,
                        converted: seq<(nat, nat)>)
    requires DeleteSpec(fs, oldFiles, pairs, merges, converted).Ok?
    ensures var r := DeleteSpec(fs, oldFiles, pairs, merges, converted).value;
      && r <= fs
      && (forall p :: p in oldFiles ==> p !in r)
      && (forall e :: e in pairs ==> e.0 !in r && e.1 !in r)
      && (forall p :: p in ConvertedMembers(merges, converted).value ==> p !in r)
  {
    forall e | e in pairs ensures e.0 in Members(pairs) && e.1 in Members(pairs) { }
  }

  /** After a finished merge no member of any found pair exists any more. */
  lemma MergeAllDeletes(tools: Tools, fs: set<string>, t: Table, chromSizes: seq<string>, formats: seq<string>)
    requires MergeAllSpec(tools, fs, Some(t), chromSizes, formats).failure.None?
    requires FindPairsSpec(ReadFrame(t.rows), t.hasChromosome).Ok?
    ensures var pairs := FindPairsSpec(ReadFrame(t.rows), t.hasChromosome).value;
      var fs' := MergeAllSpec(tools, fs, Some(t), chromSizes, formats).fs;
      forall e :: e in pairs ==> e.0 !in fs' && e.1 !in fs'
  {
    var frame := ReadFrame(t.rows);
    var pairs := FindPairsSpec(frame, t.hasChromosome).value;
    if pairs != [] {
      var st := PrepareSpec(tools, frame, chromSizes, fs, pairs, |pairs|).value;
      var merge := MergeSpec(tools, st.fs, st.merges);
      var conv := if ConvertMerged(formats)
                  then ConvertMergedSpec(tools, frame, chromSizes, pairs, merge.0, merge.1, |merge.1|)
                  else Ok(merge);
      var c := conv.value;
      var oldFiles := if ConvertMerged(formats) then merge.1 else [];
      DeleteSpecFacts(c.0, oldFiles, pairs, st.merges, st.converted);
    }
  }

  /** When every found pair reaches merging, the converted_idxs slip cannot
      index past pairs_merge. */
  lemma ConvertedMembersInRange(merges: seq<(string, string)>, converted: seq<(nat, nat)>, n: nat)
    requires |merges| == n && forall c :: c in converted ==> c.0 < n
    ensures ConvertedMembers(merges, converted).Ok?
  {
  }
}
