/** generate_pickle.py: per genome and biosource, the chip index
    (transcription factor -> chip bigWig path -> chromosome -> peaks, read
    from the bed file next to each bigWig) and the accessibility index
    (chromosome -> the largest ATAC bigWig for it), both extending the
    pickles already on disk. Directory listings, existing paths, bed tables
    and file sizes come from a `Disk` value; pickles are a map from path to
    content. */
module PickleIndex {
  import opened Util
  import opened Score

  // --------------------------------------------------------------------
  // read_bed
  // --------------------------------------------------------------------

  /** One bed row: seqnames, start, end and the PEAK column (when the file has one) */
  datatype BedRow = BedRow(seqnames: string, start: int, end: int, peak: int)

  datatype BedFile = BedFile(hasPeak: bool, rows: seq<BedRow>)

  /** `int((end - start) / 2)`: true division, then truncation toward zero */
  function HalfLength(start: int, end: int): (h: int)
    ensures end >= start ==> 0 <= 2 * h <= end - start <= 2 * h + 1
    ensures end < start ==> end - start <= 2 * h <= 0 && 2 * h <= end - start + 1
  {
    var d := end - start;
    if d >= 0 then d / 2 else -((-d) / 2)
  }

  /** The summit offset: PEAK, unless the column is missing or holds -1 */
  function Summit(hasPeak: bool, r: BedRow): int {
    if !hasPeak || r.peak == -1 then HalfLength(r.start, r.end) else r.peak
  }

  function PeakOf(hasPeak: bool, r: BedRow): Peak {
    Peak(r.start, r.end, Summit(hasPeak, r))
  }

  /** `d[c]` of a defaultdict(list) */
  function PeaksOf(d: Dict<seq<Peak>>, c: string): seq<Peak> {
    match Get(d, c)
    case None => []
    case Some(ps) => ps
  }

  /** `d[c].append(p)` */
  function AppendPeak(d: Dict<seq<Peak>>, c: string, p: Peak): Dict<seq<Peak>> {
    Put(d, c, PeaksOf(d, c) + [p])
  }

  /** The grouping read_bed builds from the rows, in file order */
  function Grouped(hasPeak: bool, rows: seq<BedRow>): Dict<seq<Peak>>
    decreases |rows|
  {
    if rows == [] then []
    else
      var last := rows[|rows| - 1];
      AppendPeak(Grouped(hasPeak, rows[..|rows| - 1]), last.seqnames, PeakOf(hasPeak, last))
  }

  method ReadBed(f: BedFile) returns (chromosome: Dict<seq<Peak>>)
    ensures chromosome == Grouped(f.hasPeak, f.rows)
  {
    chromosome := [];
    var i := 0;
    while i < |f.rows|
      invariant 0 <= i <= |f.rows|
      invariant chromosome == Grouped(f.hasPeak, f.rows[..i])
    {
      assert f.rows[..i + 1][..i] == f.rows[..i];
      var row := f.rows[i];
      var start := row.start;
      var end := row.end;
      var peak := if f.hasPeak then row.peak else -1;
      if peak == -1 {
        peak := HalfLength(start, end);
      }
      assert Peak(start, end, peak) == PeakOf(f.hasPeak, row);
      assert Grouped(f.hasPeak, f.rows[..i + 1])
        == AppendPeak(Grouped(f.hasPeak, f.rows[..i]), row.seqnames, PeakOf(f.hasPeak, row));
      chromosome := AppendPeak(chromosome, row.seqnames, Peak(start, end, peak));
      i := i + 1;
    }
    assert f.rows[..i] == f.rows;
  }

  predicate Seen(rows: seq<BedRow>, c: string) {
    exists i :: 0 <= i < |rows| && rows[i].seqnames == c
  }

  /** The peaks of the rows on chromosome c, in file order */
  function ChromPeaks(hasPeak: bool, rows: seq<BedRow>, c: string): seq<Peak>
    decreases |rows|
  {
    if rows == [] then []
    else
      var last := rows[|rows| - 1];
      ChromPeaks(hasPeak, rows[..|rows| - 1], c) + (if last.seqnames == c then [PeakOf(hasPeak, last)] else [])
  }

  lemma {:induction false} ChromPeaksUnseen(hasPeak: bool, rows: seq<BedRow>, c: string)
    requires !Seen(rows, c)
    ensures ChromPeaks(hasPeak, rows, c) == []
    decreases |rows|
  {
    if rows != [] {
      var pre := rows[..|rows| - 1];
      assert !Seen(pre, c) by {
        forall i | 0 <= i < |pre| ensures pre[i].seqnames != c { assert pre[i] == rows[i]; }
      }
      ChromPeaksUnseen(hasPeak, pre, c);
    }
  }

  lemma SeenSnoc(rows: seq<BedRow>, c: string)
    requires rows != []
    ensures Seen(rows, c) <==> Seen(rows[..|rows| - 1], c) || rows[|rows| - 1].seqnames == c
  {
    var pre := rows[..|rows| - 1];
    if Seen(rows, c) {
      var i :| 0 <= i < |rows| && rows[i].seqnames == c;
      if i < |pre| { assert pre[i] == rows[i]; }
    }
    if Seen(pre, c) {
      var i :| 0 <= i < |pre| && pre[i].seqnames == c;
      assert rows[i] == pre[i];
    }
  }

  lemma SeenSnocAll(rows: seq<BedRow>)
    requires rows != []
    ensures forall c :: Seen(rows, c) <==> Seen(rows[..|rows| - 1], c) || c == rows[|rows| - 1].seqnames
  {
    forall c ensures Seen(rows, c) <==> Seen(rows[..|rows| - 1], c) || c == rows[|rows| - 1].seqnames {
      SeenSnoc(rows, c);
    }
  }

  /** read_bed: one key per chromosome that occurs, and no key twice. */
  lemma {:induction false} GroupedShape(hasPeak: bool, rows: seq<BedRow>)
    ensures UniqueKeys(Grouped(hasPeak, rows))
    ensures forall c :: HasKey(Grouped(hasPeak, rows), c) <==> Seen(rows, c)
    decreases |rows|
  {
    if rows != [] {
      var pre := rows[..|rows| - 1];
      var last := rows[|rows| - 1];
      GroupedShape(hasPeak, pre);
      var d := Grouped(hasPeak, pre);
      var v := PeaksOf(d, last.seqnames) + [PeakOf(hasPeak, last)];
      PutKeys(d, last.seqnames, v);
      PutUnique(d, last.seqnames, v);
      SeenSnocAll(rows);
      assert Grouped(hasPeak, rows) == Put(d, last.seqnames, v);
    }
  }

  /** read_bed: the key of each chromosome that occurs holds exactly that
      chromosome's [start, end, peak] entries in file order. */
  lemma {:induction false} GroupedContents(hasPeak: bool, rows: seq<BedRow>)
    ensures forall c :: Seen(rows, c) ==> Get(Grouped(hasPeak, rows), c) == Some(ChromPeaks(hasPeak, rows, c))
    decreases |rows|
  {
    if rows != [] {
      var pre := rows[..|rows| - 1];
      var last := rows[|rows| - 1];
      GroupedContents(hasPeak, pre);
      GroupedShape(hasPeak, pre);
      var d := Grouped(hasPeak, pre);
      var v := PeaksOf(d, last.seqnames) + [PeakOf(hasPeak, last)];
      PutKeys(d, last.seqnames, v);
      if !Seen(pre, last.seqnames) {
        ChromPeaksUnseen(hasPeak, pre, last.seqnames);
      }
      var r := Grouped(hasPeak, rows);
      assert r == Put(d, last.seqnames, v);
      forall c | Seen(rows, c) ensures Get(r, c) == Some(ChromPeaks(hasPeak, rows, c)) {
        SeenSnoc(rows, c);
        if c != last.seqnames {
          assert ChromPeaks(hasPeak, rows, c) == ChromPeaks(hasPeak, pre, c);
        }
      }
    }
  }

  /** The chromosome names in order of first appearance */
  function FirstSeen(rows: seq<BedRow>): seq<string>
    decreases |rows|
  {
    if rows == [] then []
    else
      var f := FirstSeen(rows[..|rows| - 1]);
      var c := rows[|rows| - 1].seqnames;
      if c in f then f else f + [c]
  }

  /** read_bed's chromosome keys come in order of first appearance. */
  lemma {:induction false} GroupedKeys(hasPeak: bool, rows: seq<BedRow>)
    ensures Keys(Grouped(hasPeak, rows)) == FirstSeen(rows)
    decreases |rows|
  {
    if rows != [] {
      var pre := rows[..|rows| - 1];
      var last := rows[|rows| - 1];
      GroupedKeys(hasPeak, pre);
      var d := Grouped(hasPeak, pre);
      var v := PeaksOf(d, last.seqnames) + [PeakOf(hasPeak, last)];
      assert last.seqnames in Keys(d) <==> HasKey(d, last.seqnames);
      if HasKey(d, last.seqnames) {
        PutExistingKeys(d, last.seqnames, v);
      } else {
        assert Keys(d + [Entry(last.seqnames, v)]) == Keys(d) + [last.seqnames];
      }
    }
  }

  /** The default summit lies in the middle of the peak. */
  lemma DefaultSummitMiddle(r: BedRow, hasPeak: bool)
    requires r.start <= r.end && (!hasPeak || r.peak == -1)
    ensures var s := PeakOf(hasPeak, r).summit; 0 <= s && r.start + s <= r.end && r.end - (r.start + s) - s <= 1
  {
  }

  /** A missing PEAK column gives the truncated half length, also for a
      reversed interval (toward zero, not down). */
  lemma HalfLengthExamples()
    ensures HalfLength(10, 15) == 2
    ensures HalfLength(15, 10) == -2
  {
  }

  // --------------------------------------------------------------------
  // The linking table
  // --------------------------------------------------------------------

  /** The three columns parse reads from linking_table.csv. It reads them by
      position (`lt.values[:, k]`), which names them correctly when the table
      lists genome, biosource and epigenetic_mark in this order. */
  datatype LinkingRow = LinkingRow(genome: string, biosource: string, mark: string)

  function Genomes(lt: seq<LinkingRow>): set<string> {
    set r | r in lt :: r.genome
  }

  function Biosources(lt: seq<LinkingRow>): set<string> {
    set r | r in lt :: r.biosource
  }

  /** The transcription factors: every mark except 'dnasei' (the expression
      `('dnasei' or 'dna accessibility')` is just 'dnasei') */
  function TfNames(lt: seq<LinkingRow>): (tfs: set<string>)
    ensures forall r :: r in lt ==> (r.mark in tfs <== r.mark != "dnasei")
    ensures "dnasei" !in tfs
  {
    set r | r in lt && r.mark != "dnasei" :: r.mark
  }

  /** 'dna accessibility' rows are therefore treated as transcription factors. */
  lemma AccessibilityIsTf()
    ensures "dna accessibility" in TfNames([LinkingRow("hg19", "liver", "dna accessibility")])
  {
    var r := LinkingRow("hg19", "liver", "dna accessibility");
    assert r in [r];
  }

  // --------------------------------------------------------------------
  // The chip index of one transcription factor
  // --------------------------------------------------------------------

  /** What parse reads from disk: directory listings (None where
      os.listdir raises FileNotFoundError), existing paths, the bed table at a
      path and file sizes */
  datatype Disk = Disk(listdir: string -> Option<seq<string>>, files: set<string>, bed: string -> BedFile, size: string -> nat)

  /** A directory os.listdir cannot list */
  predicate Unlisted(disk: Disk, dir: string) {
    disk.listdir(dir).None?
  }

  /** A directory that lists and holds the name x */
  predicate Listed(disk: Disk, dir: string, x: string) {
    disk.listdir(dir).Some? && x in disk.listdir(dir).value
  }

  /** chip bigWig path -> chromosome -> peaks */
  type TfIndex = Dict<Dict<seq<Peak>>>

  /** The key of a bed file: every ".bed" in its path replaced by ".bw" */
  function BigWigOfBed(bedPath: string): string {
    ReplaceAll(bedPath, ".bed", ".bw")
  }

  predicate IsBedName(x: string) {
    EndsWith(Lower(x), ".bed")
  }

  /** The listed names that end in ".bed", case-insensitively, in listing order */
  function BedNames(names: seq<string>): (r: seq<string>)
    ensures forall x :: x in r <==> x in names && IsBedName(x)
    decreases |names|
  {
    if names == [] then []
    else
      var pre := names[..|names| - 1];
      var last := names[|names| - 1];
      assert forall x :: x in names <==> x in pre || x == last by { assert names == pre + [last]; }
      BedNames(pre) + (if IsBedName(last) then [last] else [])
  }

  /** One bed file: indexed under its bigWig path when that bigWig exists and
      is not indexed yet */
  function ChipStep(disk: Disk, dir: string, tfd: TfIndex, bed: string): TfIndex {
    var bw := BigWigOfBed(PathJoin(dir, bed));
    if bw in disk.files && !HasKey(tfd, bw) then
      var f := disk.bed(PathJoin(dir, bed));
      Put(tfd, bw, Grouped(f.hasPeak, f.rows))
    else tfd
  }

  function IndexTfSpec(disk: Disk, dir: string, tfd: TfIndex, beds: seq<string>): TfIndex
    decreases |beds|
  {
    if beds == [] then tfd
    else ChipStep(disk, dir, IndexTfSpec(disk, dir, tfd, beds[..|beds| - 1]), beds[|beds| - 1])
  }

  /** One transcription factor directory: listing it fails with its path
      (FileNotFoundError), otherwise its bed files are indexed. */
  function TfIndexOf(disk: Disk, dir: string, tfd: TfIndex): Result<TfIndex, string> {
    match disk.listdir(dir)
    case None => Err(dir)
    case Some(names) => Ok(IndexTfSpec(disk, dir, tfd, BedNames(names)))
  }

  /** The bed-file loop for the transcription factor directory `dir` */
  method IndexTf(disk: Disk, dir: string, tfd0: TfIndex) returns (r: Result<TfIndex, string>)
    ensures r == TfIndexOf(disk, dir, tfd0)
  {
    var listing := disk.listdir(dir);
    if listing.None? {
      return Err(dir);
    }
    var files := BedNames(listing.value);
    var tfd := tfd0;
    var k := 0;
    while k < |files|
      invariant 0 <= k <= |files|
      invariant tfd == IndexTfSpec(disk, dir, tfd0, files[..k])
    {
      assert files[..k + 1][..k] == files[..k];
      var bw := BigWigOfBed(PathJoin(dir, files[k]));
      if bw in disk.files && !HasKey(tfd, bw) {
        var peaks := ReadBed(disk.bed(PathJoin(dir, files[k])));
        tfd := Put(tfd, bw, peaks);
      }
      k := k + 1;
    }
    assert files[..k] == files;
    return Ok(tfd);
  }

  /** The bigWig key of a listed bed file that exists */
  predicate NewKey(disk: Disk, dir: string, beds: seq<string>, k: string) {
    exists b :: b in beds && BigWigOfBed(PathJoin(dir, b)) == k && k in disk.files
  }

  /** Entries already indexed are never replaced. */
  lemma {:induction false} IndexTfKept(disk: Disk, dir: string, tfd: TfIndex, beds: seq<string>)
    ensures forall k :: HasKey(tfd, k) ==> Get(IndexTfSpec(disk, dir, tfd, beds), k) == Get(tfd, k)
    decreases |beds|
  {
    if beds != [] {
      var pre := beds[..|beds| - 1];
      var b := beds[|beds| - 1];
      IndexTfKept(disk, dir, tfd, pre);
      var d := IndexTfSpec(disk, dir, tfd, pre);
      assert IndexTfSpec(disk, dir, tfd, beds) == ChipStep(disk, dir, d, b);
      var bw := BigWigOfBed(PathJoin(dir, b));
      var f := disk.bed(PathJoin(dir, b));
      PutKeys(d, bw, Grouped(f.hasPeak, f.rows));
    }
  }

  /** The new keys are exactly the existing bigWigs of the listed bed files. */
  lemma {:induction false} IndexTfKeys(disk: Disk, dir: string, tfd: TfIndex, beds: seq<string>)
    ensures forall k :: HasKey(IndexTfSpec(disk, dir, tfd, beds), k) <==> HasKey(tfd, k) || NewKey(disk, dir, beds, k)
    decreases |beds|
  {
    if beds != [] {
      var pre := beds[..|beds| - 1];
      var b := beds[|beds| - 1];
      IndexTfKeys(disk, dir, tfd, pre);
      var d := IndexTfSpec(disk, dir, tfd, pre);
      assert IndexTfSpec(disk, dir, tfd, beds) == ChipStep(disk, dir, d, b);
      var bw := BigWigOfBed(PathJoin(dir, b));
      var f := disk.bed(PathJoin(dir, b));
      PutKeys(d, bw, Grouped(f.hasPeak, f.rows));
      assert forall x :: x in beds <==> x in pre || x == b by { assert beds == pre + [b]; }
      forall k ensures NewKey(disk, dir, beds, k) <==> NewKey(disk, dir, pre, k) || (k == bw && bw in disk.files) {
        if NewKey(disk, dir, beds, k) {
          var x :| x in beds && BigWigOfBed(PathJoin(dir, x)) == k && k in disk.files;
        }
      }
    }
  }

  /** Each new key holds the grouping of a listed bed file whose bigWig it is. */
  lemma {:induction false} IndexTfValues(disk: Disk, dir: string, tfd: TfIndex, beds: seq<string>)
    ensures var r := IndexTfSpec(disk, dir, tfd, beds);
      forall k :: HasKey(r, k) && !HasKey(tfd, k) ==>
        exists b :: b in beds && BigWigOfBed(PathJoin(dir, b)) == k &&
          Get(r, k) == Some(Grouped(disk.bed(PathJoin(dir, b)).hasPeak, disk.bed(PathJoin(dir, b)).rows))
    decreases |beds|
  {
    if beds != [] {
      var pre := beds[..|beds| - 1];
      var b := beds[|beds| - 1];
      IndexTfValues(disk, dir, tfd, pre);
      var d := IndexTfSpec(disk, dir, tfd, pre);
      var r := IndexTfSpec(disk, dir, tfd, beds);
      assert r == ChipStep(disk, dir, d, b);
      var bw := BigWigOfBed(PathJoin(dir, b));
      var f := disk.bed(PathJoin(dir, b));
      PutKeys(d, bw, Grouped(f.hasPeak, f.rows));
      assert forall x :: x in pre ==> x in beds;
      assert b in beds;
      forall k | HasKey(r, k) && !HasKey(tfd, k)
        ensures exists b' :: (b' in beds && BigWigOfBed(PathJoin(dir, b')) == k &&
          Get(r, k) == Some(Grouped(disk.bed(PathJoin(dir, b')).hasPeak, disk.bed(PathJoin(dir, b')).rows)))
      {
        if r != d && k == bw {
          assert Get(r, k) == Some(Grouped(f.hasPeak, f.rows));
        } else {
          assert HasKey(d, k) && Get(r, k) == Get(d, k);
          var x :| x in pre && BigWigOfBed(PathJoin(dir, x)) == k &&
            Get(d, k) == Some(Grouped(disk.bed(PathJoin(dir, x)).hasPeak, disk.bed(PathJoin(dir, x)).rows));
          assert x in beds;
        }
      }
    }
  }

  /** An index that already holds every existing bigWig of the listed bed
      files is left alone. */
  lemma {:induction false} IndexTfFixed(disk: Disk, dir: string, tfd: TfIndex, beds: seq<string>)
    requires forall b :: b in beds && BigWigOfBed(PathJoin(dir, b)) in disk.files ==> HasKey(tfd, BigWigOfBed(PathJoin(dir, b)))
    ensures IndexTfSpec(disk, dir, tfd, beds) == tfd
    decreases |beds|
  {
    if beds != [] {
      var pre := beds[..|beds| - 1];
      assert forall x :: x in pre ==> x in beds;
      IndexTfFixed(disk, dir, tfd, pre);
      assert beds[|beds| - 1] in beds;
    }
  }

  /** Re-running the chip index on its own result adds nothing. */
  lemma IndexTfIdempotent(disk: Disk, dir: string, tfd: TfIndex, beds: seq<string>)
    ensures IndexTfSpec(disk, dir, IndexTfSpec(disk, dir, tfd, beds), beds) == IndexTfSpec(disk, dir, tfd, beds)
  {
    var r := IndexTfSpec(disk, dir, tfd, beds);
    IndexTfKeys(disk, dir, tfd, beds);
    forall b | b in beds && BigWigOfBed(PathJoin(dir, b)) in disk.files ensures HasKey(r, BigWigOfBed(PathJoin(dir, b))) {
      assert NewKey(disk, dir, beds, BigWigOfBed(PathJoin(dir, b)));
    }
    IndexTfFixed(disk, dir, r, beds);
  }

  // --------------------------------------------------------------------
  // The chip index of one biosource
  // --------------------------------------------------------------------

  /** The stored entry of a transcription factor, or a fresh one */
  function TfEntry(bs: PeakIndex, tf: string): TfIndex {
    match Get(bs, tf)
    case None => []
    case Some(d) => d
  }

  /** One transcription factor: its index is stored only when non-empty; a
      folder that does not list ends the loop with its path. */
  function ChipBioStep(disk: Disk, chipDir: string, bs: PeakIndex, tf: string): Result<PeakIndex, string> {
    match TfIndexOf(disk, PathJoin(chipDir, tf), TfEntry(bs, tf))
    case Err(d) => Err(d)
    case Ok(tfd) => Ok(if tfd != [] then Put(bs, tf, tfd) else bs)
  }

  function IndexChipSpec(disk: Disk, chipDir: string, bs: PeakIndex, tfs: seq<string>): Result<PeakIndex, string>
    decreases |tfs|
  {
    if tfs == [] then Ok(bs)
    else
      match IndexChipSpec(disk, chipDir, bs, tfs[..|tfs| - 1])
      case Err(d) => Err(d)
      case Ok(d) => ChipBioStep(disk, chipDir, d, tfs[|tfs| - 1])
  }

  lemma {:induction false} IndexChipStays(disk: Disk, chipDir: string, bs: PeakIndex, tfs: seq<string>, k: nat)
    requires k <= |tfs| && IndexChipSpec(disk, chipDir, bs, tfs[..k]).Err?
    ensures IndexChipSpec(disk, chipDir, bs, tfs) == IndexChipSpec(disk, chipDir, bs, tfs[..k])
    decreases |tfs| - k
  {
    if k < |tfs| {
      assert tfs[..k + 1][..k] == tfs[..k];
      IndexChipStays(disk, chipDir, bs, tfs, k + 1);
    } else {
      assert tfs[..k] == tfs;
    }
  }

  /** The chip index of a biosource: its chip-seq folder must list. */
  function ChipIndexOf(disk: Disk, chipDir: string, bs: PeakIndex, ltTfs: set<string>): Result<PeakIndex, string> {
    match disk.listdir(chipDir)
    case None => Err(chipDir)
    case Some(names) => IndexChipSpec(disk, chipDir, bs, Selected(names, ltTfs))
  }

  /** The listed names that are transcription factors of the linking table, in listing order */
  function Selected(names: seq<string>, keep: set<string>): (r: seq<string>)
    ensures forall x :: x in r <==> x in names && x in keep
    decreases |names|
  {
    if names == [] then []
    else
      var pre := names[..|names| - 1];
      var last := names[|names| - 1];
      assert forall x :: x in names <==> x in pre || x == last by { assert names == pre + [last]; }
      Selected(pre, keep) + (if last in keep then [last] else [])
  }

  method IndexChip(disk: Disk, chipDir: string, bs0: PeakIndex, ltTfs: set<string>) returns (r: Result<PeakIndex, string>)
    ensures r == ChipIndexOf(disk, chipDir, bs0, ltTfs)
  {
    var listing := disk.listdir(chipDir);
    if listing.None? {
      return Err(chipDir);
    }
    var tfs := Selected(listing.value, ltTfs);
    r := Ok(bs0);
    var k := 0;
    while k < |tfs| && r.Ok?
      invariant 0 <= k <= |tfs|
      invariant r == IndexChipSpec(disk, chipDir, bs0, tfs[..k])
    {
      r := IndexChipNext(disk, chipDir, bs0, tfs, k, r.value);
      k := k + 1;
    }
    if k < |tfs| {
      IndexChipStays(disk, chipDir, bs0, tfs, k);
    } else {
      assert tfs[..k] == tfs;
    }
  }

  /** One transcription factor directory of the loop in IndexChip */
  method IndexChipNext(disk: Disk, chipDir: string, bs0: PeakIndex, tfs: seq<string>, k: nat, bs: PeakIndex)
    returns (next: Result<PeakIndex, string>)
    requires k < |tfs| && IndexChipSpec(disk, chipDir, bs0, tfs[..k]) == Ok(bs)
    ensures next == IndexChipSpec(disk, chipDir, bs0, tfs[..k + 1])
  {
    assert tfs[..k + 1][..k] == tfs[..k];
    var tf := tfs[k];
    var tfd := IndexTf(disk, PathJoin(chipDir, tf), TfEntry(bs, tf));
    if tfd.Err? {
      return Err(tfd.error);
    }
    next := Ok(bs);
    if tfd.value != [] {
      next := Ok(Put(bs, tf, tfd.value));
    }
  }

  /** Every stored transcription factor entry is non-empty */
  predicate EntriesNonEmpty(bs: PeakIndex) {
    forall e :: e in bs ==> e.value != []
  }

  lemma PutNonEmpty(bs: PeakIndex, tf: string, v: TfIndex)
    requires EntriesNonEmpty(bs) && v != []
    ensures EntriesNonEmpty(Put(bs, tf, v))
    decreases |bs|
  {
    if bs != [] && bs[0].key != tf {
      assert forall e :: e in bs[1..] ==> e in bs;
      PutNonEmpty(bs[1..], tf, v);
    }
  }

  /** The biosource index keeps every stored (bigWig path, peaks) entry, and
      stores no empty transcription factor entry; it fails only on a folder
      that does not list. */
  lemma {:induction false} IndexChipFacts(disk: Disk, chipDir: string, bs: PeakIndex, tfs: seq<string>)
    ensures var r := IndexChipSpec(disk, chipDir, bs, tfs);
      && (r.Err? ==> Unlisted(disk, r.error))
      && (r.Ok? ==> forall tf, bw :: HasKey(TfEntry(bs, tf), bw) ==> Get(TfEntry(r.value, tf), bw) == Get(TfEntry(bs, tf), bw))
      && (r.Ok? && EntriesNonEmpty(bs) ==> EntriesNonEmpty(r.value))
      && (r.Ok? ==> forall tf :: HasKey(bs, tf) ==> HasKey(r.value, tf))
    decreases |tfs|
  {
    if tfs != [] {
      var pre := tfs[..|tfs| - 1];
      var tf := tfs[|tfs| - 1];
      IndexChipFacts(disk, chipDir, bs, pre);
      if IndexChipSpec(disk, chipDir, bs, pre).Ok? {
        var d := IndexChipSpec(disk, chipDir, bs, pre).value;
        var dir := PathJoin(chipDir, tf);
        if disk.listdir(dir).Some? {
          var beds := BedNames(disk.listdir(dir).value);
          var tfd := IndexTfSpec(disk, dir, TfEntry(d, tf), beds);
          IndexTfKept(disk, dir, TfEntry(d, tf), beds);
          PutKeys(d, tf, tfd);
          if tfd != [] && EntriesNonEmpty(d) {
            PutNonEmpty(d, tf, tfd);
          }
        }
      }
    }
  }

  // --------------------------------------------------------------------
  // The accessibility index of one biosource
  // --------------------------------------------------------------------

  predicate IsBigWigName(f: string) {
    EndsWith(Lower(f), ".bigwig") || EndsWith(Lower(f), ".bw")
  }

  lemma BigWigNameHasDot(f: string)
    requires IsBigWigName(f)
    ensures HasChar(f, '.')
  {
    var l := Lower(f);
    if EndsWith(l, ".bigwig") {
      assert l[|l| - 7] == '.';
      assert LowerChar(f[|f| - 7]) == '.';
    } else {
      assert l[|l| - 3] == '.';
      assert LowerChar(f[|f| - 3]) == '.';
    }
  }

  /** `f.split('.')[-2]` */
  function ChromOfName(f: string): string
    requires IsBigWigName(f)
  {
    BigWigNameHasDot(f);
    SplitHasSep(f, '.');
    var parts := Split(f, '.');
    parts[|parts| - 2]
  }

  /** f is a listed ATAC bigWig for chromosome c */
  predicate AtacFileOf(f: string, c: string) {
    IsBigWigName(f) && ChromOfName(f) == c
  }

  /** file name -> size */
  type Sizes = Dict<nat>

  function SizesOf(cands: Dict<Sizes>, c: string): Sizes {
    match Get(cands, c)
    case None => []
    case Some(s) => s
  }

  /** One listed file: a bigWig for a chromosome not yet indexed becomes a candidate. */
  function AtacStep(disk: Disk, dir: string, atac: AccessIndex, cands: Dict<Sizes>, f: string): Dict<Sizes> {
    if IsBigWigName(f) && ChromOfName(f) !in atac then
      var c := ChromOfName(f);
      Put(cands, c, Put(SizesOf(cands, c), f, disk.size(PathJoin(dir, f))))
    else cands
  }

  function CandidatesSpec(disk: Disk, dir: string, atac: AccessIndex, names: seq<string>): Dict<Sizes>
    decreases |names|
  {
    if names == [] then []
    else AtacStep(disk, dir, atac, CandidatesSpec(disk, dir, atac, names[..|names| - 1]), names[|names| - 1])
  }

  /** The loop over the listed names of the atac-seq folder `dir` */
  method CollectAtac(disk: Disk, dir: string, atac: AccessIndex, names: seq<string>) returns (cands: Dict<Sizes>)
    ensures cands == CandidatesSpec(disk, dir, atac, names)
  {
    cands := [];
    var k := 0;
    while k < |names|
      invariant 0 <= k <= |names|
      invariant cands == CandidatesSpec(disk, dir, atac, names[..k])
    {
      assert names[..k + 1][..k] == names[..k];
      var f := names[k];
      if IsBigWigName(f) {
        var c := ChromOfName(f);
        if c !in atac {
          cands := Put(cands, c, Put(SizesOf(cands, c), f, disk.size(PathJoin(dir, f))));
        }
      }
      k := k + 1;
    }
    assert names[..k] == names;
  }

  /** Every candidate chromosome has at least one file. */
  predicate NonEmptySizes(cands: Dict<Sizes>) {
    forall e :: e in cands ==> |e.value| > 0
  }

  lemma PutNonEmptySizes(cands: Dict<Sizes>, c: string, v: Sizes)
    requires NonEmptySizes(cands) && |v| > 0
    ensures NonEmptySizes(Put(cands, c, v))
    decreases |cands|
  {
    if cands != [] && cands[0].key != c {
      assert forall e :: e in cands[1..] ==> e in cands;
      PutNonEmptySizes(cands[1..], c, v);
    }
  }

  /** The candidates are chromosomes not yet indexed, each with at least one file. */
  lemma {:induction false} CandidatesShape(disk: Disk, dir: string, atac: AccessIndex, names: seq<string>)
    ensures var cands := CandidatesSpec(disk, dir, atac, names);
      && NonEmptySizes(cands) && UniqueKeys(cands)
      && (forall c :: HasKey(cands, c) ==> c !in atac)
    decreases |names|
  {
    if names != [] {
      var pre := names[..|names| - 1];
      var f := names[|names| - 1];
      CandidatesShape(disk, dir, atac, pre);
      var d := CandidatesSpec(disk, dir, atac, pre);
      if IsBigWigName(f) && ChromOfName(f) !in atac {
        var c0 := ChromOfName(f);
        var inner := Put(SizesOf(d, c0), f, disk.size(PathJoin(dir, f)));
        PutKeys(d, c0, inner);
        PutKeys(SizesOf(d, c0), f, disk.size(PathJoin(dir, f)));
        assert HasKey(inner, f);
        PutNonEmptySizes(d, c0, inner);
        PutUnique(d, c0, inner);
      }
    }
  }

  /** The files of candidate chromosome c are exactly its listed bigWigs, with their sizes. */
  lemma {:induction false} CandidatesAt(disk: Disk, dir: string, atac: AccessIndex, names: seq<string>, c: string, g: string)
    ensures var s := SizesOf(CandidatesSpec(disk, dir, atac, names), c);
      && (HasKey(s, g) <==> g in names && AtacFileOf(g, c) && c !in atac)
      && (forall x :: x in s ==> x.value == disk.size(PathJoin(dir, x.key)))
    decreases |names|
  {
    if names != [] {
      var pre := names[..|names| - 1];
      var f := names[|names| - 1];
      CandidatesAt(disk, dir, atac, pre, c, g);
      assert names == pre + [f];
      CandidateStepAt(disk, dir, atac, CandidatesSpec(disk, dir, atac, pre), pre, f, c, g);
    }
  }

  /** One listed file, for one chromosome and one file name */
  lemma CandidateStepAt(disk: Disk, dir: string, atac: AccessIndex, d: Dict<Sizes>, pre: seq<string>, f: string, c: string, g: string)
    requires HasKey(SizesOf(d, c), g) <==> g in pre && AtacFileOf(g, c) && c !in atac
    requires forall x :: x in SizesOf(d, c) ==> x.value == disk.size(PathJoin(dir, x.key))
    ensures var r := AtacStep(disk, dir, atac, d, f);
      && (HasKey(SizesOf(r, c), g) <==> g in pre + [f] && AtacFileOf(g, c) && c !in atac)
      && (forall x :: x in SizesOf(r, c) ==> x.value == disk.size(PathJoin(dir, x.key)))
  {
    assert g in pre + [f] <==> g in pre || g == f;
    if IsBigWigName(f) && ChromOfName(f) !in atac {
      var c0 := ChromOfName(f);
      var size := disk.size(PathJoin(dir, f));
      var old0 := SizesOf(d, c0);
      var inner := Put(old0, f, size);
      PutKeys(d, c0, inner);
      if c == c0 {
        PutKeys(old0, f, size);
        PutEntries(old0, f, size);
        assert SizesOf(Put(d, c0, inner), c) == inner;
      } else {
        assert SizesOf(Put(d, c0, inner), c) == SizesOf(d, c);
      }
    }
  }

  /** `max(d, key=d.get)`: the first entry of largest size */
  function MaxEntry(d: Sizes): (e: Entry<nat>)
    requires |d| > 0
    ensures e in d
    ensures forall x :: x in d ==> x.value <= e.value
    decreases |d|
  {
    if |d| == 1 then d[0]
    else
      var pre := d[..|d| - 1];
      var m := MaxEntry(pre);
      assert forall x :: x in d <==> x in pre || x == d[|d| - 1] by { assert d == pre + [d[|d| - 1]]; }
      if d[|d| - 1].value > m.value then d[|d| - 1] else m
  }

  /** The loop over candidate chromosomes: each gets its largest file */
  function SelectSpec(dir: string, atac: AccessIndex, cands: Dict<Sizes>): AccessIndex
    requires NonEmptySizes(cands)
    decreases |cands|
  {
    if cands == [] then atac
    else
      var pre := cands[..|cands| - 1];
      var last := cands[|cands| - 1];
      assert forall e :: e in pre ==> e in cands;
      SelectSpec(dir, atac, pre)[last.key := PathJoin(dir, MaxEntry(last.value).key)]
  }

  method SelectLargest(dir: string, atac0: AccessIndex, cands: Dict<Sizes>) returns (atac: AccessIndex)
    requires NonEmptySizes(cands)
    ensures atac == SelectSpec(dir, atac0, cands)
  {
    atac := atac0;
    var k := 0;
    while k < |cands|
      invariant 0 <= k <= |cands|
      invariant NonEmptySizes(cands[..k])
      invariant atac == SelectSpec(dir, atac0, cands[..k])
    {
      assert cands[..k + 1][..k] == cands[..k];
      assert cands[k] in cands;
      atac := atac[cands[k].key := PathJoin(dir, MaxEntry(cands[k].value).key)];
      k := k + 1;
    }
    assert cands[..k] == cands;
  }

  /** The chromosomes afterwards are the old ones plus the candidates. */
  lemma {:induction false} SelectKeys(dir: string, atac: AccessIndex, cands: Dict<Sizes>)
    requires NonEmptySizes(cands)
    ensures forall c :: c in SelectSpec(dir, atac, cands) <==> c in atac || HasKey(cands, c)
    decreases |cands|
  {
    if cands != [] {
      var pre := cands[..|cands| - 1];
      var last := cands[|cands| - 1];
      assert forall e :: e in pre ==> e in cands;
      SelectKeys(dir, atac, pre);
      assert cands == pre + [last];
      HasKeySnoc(pre, last);
      assert SelectSpec(dir, atac, cands) == SelectSpec(dir, atac, pre)[last.key := PathJoin(dir, MaxEntry(last.value).key)];
    }
  }

  /** A chromosome that is not a candidate keeps its path. */
  lemma {:induction false} SelectKept(dir: string, atac: AccessIndex, cands: Dict<Sizes>, c: string)
    requires NonEmptySizes(cands) && c in atac && !HasKey(cands, c)
    ensures c in SelectSpec(dir, atac, cands) && SelectSpec(dir, atac, cands)[c] == atac[c]
    decreases |cands|
  {
    if cands != [] {
      var pre := cands[..|cands| - 1];
      var last := cands[|cands| - 1];
      assert forall e :: e in pre ==> e in cands;
      assert cands == pre + [last];
      HasKeySnoc(pre, last);
      SelectKept(dir, atac, pre, c);
      assert SelectSpec(dir, atac, cands) == SelectSpec(dir, atac, pre)[last.key := PathJoin(dir, MaxEntry(last.value).key)];
    }
  }

  /** Every candidate chromosome gets the path of its largest file. */
  lemma {:induction false} SelectChosen(dir: string, atac: AccessIndex, cands: Dict<Sizes>, c: string)
    requires NonEmptySizes(cands) && UniqueKeys(cands) && HasKey(cands, c)
    ensures c in SelectSpec(dir, atac, cands)
    ensures SelectSpec(dir, atac, cands)[c] == PathJoin(dir, MaxEntry(SizesOf(cands, c)).key)
    decreases |cands|
  {
    var pre := cands[..|cands| - 1];
    var last := cands[|cands| - 1];
    SnocUnique(cands);
    SizesOfSnoc(pre, last, c);
    assert cands == pre + [last];
    SelectSnoc(dir, atac, cands);
    if c != last.key {
      HasKeySnoc(pre, last);
      SelectChosen(dir, atac, pre, c);
    }
  }

  lemma SelectSnoc(dir: string, atac: AccessIndex, cands: Dict<Sizes>)
    requires NonEmptySizes(cands) && cands != []
    ensures var last := cands[|cands| - 1];
      NonEmptySizes(cands[..|cands| - 1]) && |last.value| > 0 &&
      SelectSpec(dir, atac, cands) == SelectSpec(dir, atac, cands[..|cands| - 1])[last.key := PathJoin(dir, MaxEntry(last.value).key)]
  {
    assert cands[|cands| - 1] in cands;
    assert forall e :: e in cands[..|cands| - 1] ==> e in cands;
  }

  lemma SizesOfSnoc(pre: Dict<Sizes>, last: Entry<Sizes>, c: string)
    requires !HasKey(pre, last.key)
    ensures SizesOf(pre + [last], c) == if c == last.key then last.value else SizesOf(pre, c)
  {
    GetSnoc(pre, last, c);
  }

  /** The accessibility index of a biosource whose atac-seq folder `dir`
      lists `names`: chromosomes already indexed keep their path; every other
      chromosome with a listed bigWig gets the path of one of its files of
      largest size. */
  lemma AtacIndexLargest(disk: Disk, dir: string, atac: AccessIndex, names: seq<string>, c: string)
    ensures var cands := CandidatesSpec(disk, dir, atac, names);
      NonEmptySizes(cands) &&
      var r := SelectSpec(dir, atac, cands);
      && (c in atac ==> c in r && r[c] == atac[c])
      && (c !in atac && (exists f :: f in names && AtacFileOf(f, c)) ==>
            c in r &&
            exists f :: f in names && AtacFileOf(f, c) && r[c] == PathJoin(dir, f) &&
              forall g :: g in names && AtacFileOf(g, c) ==> disk.size(PathJoin(dir, g)) <= disk.size(PathJoin(dir, f)))
      && (c !in atac && (forall f :: f in names ==> !AtacFileOf(f, c)) ==> c !in r)
  {
    var cands := CandidatesSpec(disk, dir, atac, names);
    CandidatesShape(disk, dir, atac, names);
    SelectKeys(dir, atac, cands);
    if c in atac && !HasKey(cands, c) {
      SelectKept(dir, atac, cands, c);
    }
    if HasKey(cands, c) {
      SelectChosen(dir, atac, cands, c);
    }
    var r := SelectSpec(dir, atac, cands);
    if c !in atac && exists f :: f in names && AtacFileOf(f, c) {
      var f0 :| f0 in names && AtacFileOf(f0, c);
      CandidatesAt(disk, dir, atac, names, c, f0);
      var s := SizesOf(cands, c);
      assert HasKey(cands, c);
      var m := MaxEntry(s);
      assert HasKey(s, m.key) by { var i :| 0 <= i < |s| && s[i] == m; }
      CandidatesAt(disk, dir, atac, names, c, m.key);
      forall g | g in names && AtacFileOf(g, c) ensures disk.size(PathJoin(dir, g)) <= disk.size(PathJoin(dir, m.key)) {
        CandidatesAt(disk, dir, atac, names, c, g);
        var i :| 0 <= i < |s| && s[i].key == g;
        assert s[i] in s;
      }
      assert r[c] == PathJoin(dir, m.key);
    }
    if HasKey(cands, c) {
      var v: Sizes := Get(cands, c).value;
      var i :| 0 <= i < |cands| && cands[i] == Entry(c, v);
      assert cands[i] in cands;
      assert v[0] in v;
      assert SizesOf(cands, c) == v;
      assert HasKey(v, v[0].key);
      CandidatesAt(disk, dir, atac, names, c, v[0].key);
    }
  }

  /** After `d[k] = v` every entry is the new one or an old one. */
  lemma {:induction false} PutEntries<V>(d: Dict<V>, k: string, v: V)
    ensures forall x :: x in Put(d, k, v) ==> x == Entry(k, v) || x in d
    decreases |d|
  {
    if d != [] && d[0].key != k {
      PutEntries(d[1..], k, v);
      assert forall x :: x in d[1..] ==> x in d;
    }
  }

  // --------------------------------------------------------------------
  // parse
  // --------------------------------------------------------------------

  /** The pickles on disk: chip and atac pickle paths with their contents */
  datatype Pickles = Pickles(chip: map<string, PeakIndex>, atac: map<string, AccessIndex>)

  /** `<data>/pickledata/<genome>/<kind>/<biosource>.pickle` */
  function PicklePath(data: string, genome: string, kind: string, b: string): string {
    PathJoin(PathJoin(PathJoin(PathJoin(data, "pickledata"), genome), kind), b + ".pickle")
  }

  /** `<data>/<genome>/<biosource>/<kind>` */
  function DataDir(data: string, genome: string, b: string, kind: string): string {
    PathJoin(PathJoin(PathJoin(data, genome), b), kind)
  }

  /** pickle.load, with FileNotFoundError giving the empty dict */
  function LoadedChip(pk: Pickles, p: string): PeakIndex {
    if p in pk.chip then pk.chip[p] else []
  }

  function LoadedAtac(pk: Pickles, p: string): AccessIndex {
    if p in pk.atac then pk.atac[p] else map[]
  }

  /** What parse has written so far, and the directory whose listing raised
      FileNotFoundError (None when it ran to the end) */
  datatype Outcome = Outcome(pickles: Pickles, failure: Option<string>)

  /** One biosource: the chip-seq folder is indexed and its pickle written
      only when non-empty; then the atac-seq folder is listed, and its pickle
      is always written. A folder that does not list stops parse there, with
      what was written before it kept. */
  function BiosourceSpec(disk: Disk, data: string, ltTfs: set<string>, pk: Pickles, genome: string, b: string): Outcome {
    var chipPath := PicklePath(data, genome, "chip-seq", b);
    match ChipIndexOf(disk, DataDir(data, genome, b, "chip-seq"), LoadedChip(pk, chipPath), ltTfs)
    case Err(d) => Outcome(pk, Some(d))
    case Ok(bs) =>
      var pk1 := Pickles(if bs != [] then pk.chip[chipPath := bs] else pk.chip, pk.atac);
      var atacPath := PicklePath(data, genome, "atac-seq", b);
      var atacDir := DataDir(data, genome, b, "atac-seq");
      match disk.listdir(atacDir)
      case None => Outcome(pk1, Some(atacDir))
      case Some(names) =>
        var atac0 := LoadedAtac(pk, atacPath);
        var cands := CandidatesSpec(disk, atacDir, atac0, names);
        CandidatesShape(disk, atacDir, atac0, names);
        Outcome(Pickles(pk1.chip, pk.atac[atacPath := SelectSpec(atacDir, atac0, cands)]), None)
  }

  method ParseBiosource(disk: Disk, data: string, ltTfs: set<string>, pk: Pickles, genome: string, b: string)
    returns (r: Outcome)
    ensures r == BiosourceSpec(disk, data, ltTfs, pk, genome, b)
  {
    var chipPath := PicklePath(data, genome, "chip-seq", b);
    var bs := IndexChip(disk, DataDir(data, genome, b, "chip-seq"), LoadedChip(pk, chipPath), ltTfs);
    if bs.Err? {
      return Outcome(pk, Some(bs.error));
    }
    var chip := pk.chip;
    if bs.value != [] {
      chip := chip[chipPath := bs.value];
    }
    var atacPath := PicklePath(data, genome, "atac-seq", b);
    var atacDir := DataDir(data, genome, b, "atac-seq");
    var atac := LoadedAtac(pk, atacPath);
    var listing := disk.listdir(atacDir);
    if listing.None? {
      return Outcome(Pickles(chip, pk.atac), Some(atacDir));
    }
    var cands := CollectAtac(disk, atacDir, atac, listing.value);
    CandidatesShape(disk, atacDir, atac, listing.value);
    atac := SelectLargest(atacDir, atac, cands);
    r := Outcome(Pickles(chip, pk.atac[atacPath := atac]), None);
  }

  /** Pickles only gain paths, and every chip pickle written is non-empty. */
  predicate Extends(pk: Pickles, r: Pickles) {
    && pk.chip.Keys <= r.chip.Keys && pk.atac.Keys <= r.atac.Keys
    && (forall p :: p in r.chip ==> (p in pk.chip && r.chip[p] == pk.chip[p]) || r.chip[p] != [])
  }

  lemma ExtendsTrans(a: Pickles, b: Pickles, c: Pickles)
    requires Extends(a, b) && Extends(b, c)
    ensures Extends(a, c)
  {
    forall p | p in c.chip ensures (p in a.chip && c.chip[p] == a.chip[p]) || c.chip[p] != [] {
      if c.chip[p] == [] {
        assert p in b.chip && c.chip[p] == b.chip[p];
      }
    }
  }

  /** One biosource extends the pickles; it fails only on a folder that does
      not list, and otherwise writes the biosource's atac pickle. */
  lemma BiosourceExtends(disk: Disk, data: string, ltTfs: set<string>, pk: Pickles, genome: string, b: string)
    ensures var r := BiosourceSpec(disk, data, ltTfs, pk, genome, b);
      && Extends(pk, r.pickles)
      && (r.failure.None? ==> PicklePath(data, genome, "atac-seq", b) in r.pickles.atac)
      && (r.failure.Some? ==> Unlisted(disk, r.failure.value))
  {
    var chipPath := PicklePath(data, genome, "chip-seq", b);
    var chipDir := DataDir(data, genome, b, "chip-seq");
    var c := ChipIndexOf(disk, chipDir, LoadedChip(pk, chipPath), ltTfs);
    if disk.listdir(chipDir).Some? {
      IndexChipFacts(disk, chipDir, LoadedChip(pk, chipPath), Selected(disk.listdir(chipDir).value, ltTfs));
    }
  }

  /** The chip pickle is written before the atac-seq folder is listed: when
      only that listing fails, the chip index is already on disk and the atac
      pickles are untouched. */
  lemma BiosourceChipFirst(disk: Disk, data: string, ltTfs: set<string>, pk: Pickles, genome: string, b: string)
    requires Unlisted(disk, DataDir(data, genome, b, "atac-seq"))
    ensures var chipPath := PicklePath(data, genome, "chip-seq", b);
      var c := ChipIndexOf(disk, DataDir(data, genome, b, "chip-seq"), LoadedChip(pk, chipPath), ltTfs);
      var r := BiosourceSpec(disk, data, ltTfs, pk, genome, b);
      && r.failure.Some?
      && r.pickles.atac == pk.atac
      && (c.Ok? ==> r.failure == Some(DataDir(data, genome, b, "atac-seq")))
      && (c.Ok? && c.value != [] ==> chipPath in r.pickles.chip && r.pickles.chip[chipPath] == c.value)
      && (c.Err? ==> r == Outcome(pk, Some(c.error)))
  {
  }

  /** The biosources of one genome, in order, stopping at the first failure */
  function GenomeSpec(disk: Disk, data: string, ltTfs: set<string>, pk: Pickles, genome: string, bios: seq<string>): Outcome
    decreases |bios|
  {
    if bios == [] then Outcome(pk, None)
    else
      var pre := GenomeSpec(disk, data, ltTfs, pk, genome, bios[..|bios| - 1]);
      if pre.failure.Some? then pre
      else BiosourceSpec(disk, data, ltTfs, pre.pickles, genome, bios[|bios| - 1])
  }

  lemma {:induction false} GenomeStays(disk: Disk, data: string, ltTfs: set<string>, pk: Pickles, genome: string, bios: seq<string>, k: nat)
    requires k <= |bios| && GenomeSpec(disk, data, ltTfs, pk, genome, bios[..k]).failure.Some?
    ensures GenomeSpec(disk, data, ltTfs, pk, genome, bios) == GenomeSpec(disk, data, ltTfs, pk, genome, bios[..k])
    decreases |bios| - k
  {
    if k < |bios| {
      assert bios[..k + 1][..k] == bios[..k];
      GenomeStays(disk, data, ltTfs, pk, genome, bios, k + 1);
    } else {
      assert bios[..k] == bios;
    }
  }

  /** One genome: its folder must list; its biosources are the listed
      folders named in the linking table. */
  function GenomeOf(disk: Disk, data: string, ltTfs: set<string>, ltBios: set<string>, pk: Pickles, g: string): Outcome {
    match disk.listdir(PathJoin(data, g))
    case None => Outcome(pk, Some(PathJoin(data, g)))
    case Some(names) => GenomeSpec(disk, data, ltTfs, pk, g, Selected(names, ltBios))
  }

  /** The genomes, in order, stopping at the first failure */
  function ParseSpec(disk: Disk, data: string, lt: seq<LinkingRow>, pk: Pickles, genomes: seq<string>): Outcome
    decreases |genomes|
  {
    if genomes == [] then Outcome(pk, None)
    else
      var pre := ParseSpec(disk, data, lt, pk, genomes[..|genomes| - 1]);
      if pre.failure.Some? then pre
      else GenomeOf(disk, data, TfNames(lt), Biosources(lt), pre.pickles, genomes[|genomes| - 1])
  }

  lemma {:induction false} ParseStays(disk: Disk, data: string, lt: seq<LinkingRow>, pk: Pickles, genomes: seq<string>, k: nat)
    requires k <= |genomes| && ParseSpec(disk, data, lt, pk, genomes[..k]).failure.Some?
    ensures ParseSpec(disk, data, lt, pk, genomes) == ParseSpec(disk, data, lt, pk, genomes[..k])
    decreases |genomes| - k
  {
    if k < |genomes| {
      assert genomes[..k + 1][..k] == genomes[..k];
      ParseStays(disk, data, lt, pk, genomes, k + 1);
    } else {
      assert genomes[..k] == genomes;
    }
  }

  method ParseGenome(disk: Disk, data: string, ltTfs: set<string>, pk0: Pickles, genome: string, bios: seq<string>)
    returns (r: Outcome)
    ensures r == GenomeSpec(disk, data, ltTfs, pk0, genome, bios)
  {
    r := Outcome(pk0, None);
    var k := 0;
    while k < |bios| && r.failure.None?
      invariant 0 <= k <= |bios|
      invariant r == GenomeSpec(disk, data, ltTfs, pk0, genome, bios[..k])
    {
      assert bios[..k + 1][..k] == bios[..k];
      r := ParseBiosource(disk, data, ltTfs, r.pickles, genome, bios[k]);
      k := k + 1;
    }
    if k < |bios| {
      GenomeStays(disk, data, ltTfs, pk0, genome, bios, k);
    } else {
      assert bios[..k] == bios;
    }
  }

  /** parse; `genomes` is the iteration order of the linking table's genome set. */
  method Parse(disk: Disk, data: string, lt: seq<LinkingRow>, genomes: seq<string>, pk0: Pickles) returns (r: Outcome)
    requires (set g | g in genomes) == Genomes(lt)
    ensures r == ParseSpec(disk, data, lt, pk0, genomes)
  {
    var ltTfs := TfNames(lt);
    var ltBios := Biosources(lt);
    r := Outcome(pk0, None);
    var k := 0;
    while k < |genomes| && r.failure.None?
      invariant 0 <= k <= |genomes|
      invariant r == ParseSpec(disk, data, lt, pk0, genomes[..k])
    {
      assert genomes[..k + 1][..k] == genomes[..k];
      var dir := PathJoin(data, genomes[k]);
      var listing := disk.listdir(dir);
      if listing.None? {
        r := Outcome(r.pickles, Some(dir));
      } else {
        r := ParseGenome(disk, data, ltTfs, r.pickles, genomes[k], Selected(listing.value, ltBios));
      }
      k := k + 1;
    }
    if k < |genomes| {
      ParseStays(disk, data, lt, pk0, genomes, k);
    } else {
      assert genomes[..k] == genomes;
    }
  }

  /** The biosources of one genome extend the pickles; a failure names a
      folder that does not list, and without one every biosource has an atac
      pickle. */
  lemma {:induction false} GenomeExtends(disk: Disk, data: string, ltTfs: set<string>, pk: Pickles, genome: string, bios: seq<string>)
    ensures var r := GenomeSpec(disk, data, ltTfs, pk, genome, bios);
      && Extends(pk, r.pickles)
      && (r.failure.None? ==> forall b :: b in bios ==> PicklePath(data, genome, "atac-seq", b) in r.pickles.atac)
      && (r.failure.Some? ==> Unlisted(disk, r.failure.value))
    decreases |bios|
  {
    if bios != [] {
      var pre := bios[..|bios| - 1];
      var last := bios[|bios| - 1];
      GenomeExtends(disk, data, ltTfs, pk, genome, pre);
      var mid := GenomeSpec(disk, data, ltTfs, pk, genome, pre);
      if mid.failure.None? {
        BiosourceExtends(disk, data, ltTfs, mid.pickles, genome, last);
        var r := BiosourceSpec(disk, data, ltTfs, mid.pickles, genome, last);
        assert GenomeSpec(disk, data, ltTfs, pk, genome, bios) == r;
        ExtendsTrans(pk, mid.pickles, r.pickles);
        if r.failure.None? {
          forall b | b in bios
            ensures PicklePath(data, genome, "atac-seq", b) in r.pickles.atac
          {
            if b != last {
              assert b in pre by { assert bios == pre + [last]; }
              assert PicklePath(data, genome, "atac-seq", b) in mid.pickles.atac;
            }
          }
        }
      }
    }
  }

  /** One genome: like GenomeExtends, and its own folder is the failure when
      it does not list. */
  lemma GenomeOfExtends(disk: Disk, data: string, ltTfs: set<string>, ltBios: set<string>, pk: Pickles, g: string)
    ensures var r := GenomeOf(disk, data, ltTfs, ltBios, pk, g);
      && Extends(pk, r.pickles)
      && (r.failure.None? ==> forall b :: Listed(disk, PathJoin(data, g), b) && b in ltBios ==>
            PicklePath(data, g, "atac-seq", b) in r.pickles.atac)
      && (r.failure.Some? ==> Unlisted(disk, r.failure.value))
  {
    var dir := PathJoin(data, g);
    if disk.listdir(dir).Some? {
      var bios := Selected(disk.listdir(dir).value, ltBios);
      GenomeExtends(disk, data, ltTfs, pk, g, bios);
    }
  }

  /** After parse every chip pickle it wrote is non-empty and no pickle is
      lost; a failure names a folder that does not list, and without one every
      listed biosource of the linking table has an atac pickle. */
  lemma {:induction false} ParseExtends(disk: Disk, data: string, lt: seq<LinkingRow>, pk: Pickles, genomes: seq<string>)
    ensures var r := ParseSpec(disk, data, lt, pk, genomes);
      && Extends(pk, r.pickles)
      && (r.failure.None? ==> forall g, b :: g in genomes && Listed(disk, PathJoin(data, g), b) && b in Biosources(lt) ==>
            PicklePath(data, g, "atac-seq", b) in r.pickles.atac)
      && (r.failure.Some? ==> Unlisted(disk, r.failure.value))
    decreases |genomes|
  {
    if genomes != [] {
      var pre := genomes[..|genomes| - 1];
      var g := genomes[|genomes| - 1];
      ParseExtends(disk, data, lt, pk, pre);
      var mid := ParseSpec(disk, data, lt, pk, pre);
      if mid.failure.None? {
        GenomeOfExtends(disk, data, TfNames(lt), Biosources(lt), mid.pickles, g);
        var r := ParseSpec(disk, data, lt, pk, genomes);
        ExtendsTrans(pk, mid.pickles, r.pickles);
        assert genomes == pre + [g];
      }
    }
  }

  /** On a disk where every directory lists, parse runs to the end. */
  lemma ParseCompletes(disk: Disk, data: string, lt: seq<LinkingRow>, pk: Pickles, genomes: seq<string>)
    requires forall d :: disk.listdir(d).Some?
    ensures ParseSpec(disk, data, lt, pk, genomes).failure.None?
  {
    ParseExtends(disk, data, lt, pk, genomes);
  }
}
