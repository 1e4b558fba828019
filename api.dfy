/** The visualization back end: the result tree offered to the browser, the
    selection the browser sends back, and the key under which raw data of a
    selected analysis is returned. result.csv is given as its rows; the two
    renderings of the analysis time (local `asctime` and `str` of the float)
    are parameters. */
module ApiCalls {
  import opened Util

  /** The result.csv columns the tree uses */
  datatype ResultRow = ResultRow(biosource: string, genome: string, tf: string, width: string, time: real)

  /** `time.asctime(time.localtime(t))` and `str(t)` */
  datatype Clock = Clock(asctime: real -> string, show: real -> string)

  /** A tree node as exchanged with the browser (`type` is `kind` here) */
  datatype Node = Node(item: string, kind: string, belongsTo: string, checked: bool, children: seq<Node>)

  // --------------------------------------------------------------------
  // get_biosource_list_for_tree
  // --------------------------------------------------------------------

  /** The outer label of a row: biosource, '_', genome */
  function GroupKey(r: ResultRow): string {
    r.biosource + "_" + r.genome
  }

  /** The inner label of a row */
  function TfLabel(clock: Clock, r: ResultRow): string {
    r.tf + ", width: " + r.width + ", analyzed: " + clock.asctime(r.time)
  }

  /** The labels stored under `k` so far */
  function TfsOf(d: Dict<seq<string>>, k: string): seq<string> {
    match Get(d, k)
    case Some(tfs) => tfs
    case None => []
  }

  /** One row of the first loop: create the group if absent, then append the
      label unless the group already holds it. */
  function AddTf(d: Dict<seq<string>>, k: string, tf: string): Dict<seq<string>> {
    var tfs := TfsOf(d, k);
    Put(d, k, if tf in tfs then tfs else tfs + [tf])
  }

  /** data_dict after the rows */
  function GroupSpec(clock: Clock, rows: seq<ResultRow>): Dict<seq<string>>
    decreases |rows|
  {
    if rows == [] then []
    else
      var last := rows[|rows| - 1];
      AddTf(GroupSpec(clock, rows[..|rows| - 1]), GroupKey(last), TfLabel(clock, last))
  }

  /** Reference: the outer labels in order of first appearance */
  function FirstKeys(rows: seq<ResultRow>): seq<string>
    decreases |rows|
  {
    if rows == [] then []
    else
      var f := FirstKeys(rows[..|rows| - 1]);
      var k := GroupKey(rows[|rows| - 1]);
      if k in f then f else f + [k]
  }

  /** Reference: the inner labels of group `k`, in order of first appearance */
  function FirstTfs(clock: Clock, rows: seq<ResultRow>, k: string): seq<string>
    decreases |rows|
  {
    if rows == [] then []
    else
      var f := FirstTfs(clock, rows[..|rows| - 1], k);
      var last := rows[|rows| - 1];
      if GroupKey(last) == k && TfLabel(clock, last) !in f then f + [TfLabel(clock, last)] else f
  }

  predicate InGroup(clock: Clock, rows: seq<ResultRow>, k: string, tf: string) {
    exists i :: 0 <= i < |rows| && GroupKey(rows[i]) == k && TfLabel(clock, rows[i]) == tf
  }

  predicate HasGroup(rows: seq<ResultRow>, k: string) {
    exists i :: 0 <= i < |rows| && GroupKey(rows[i]) == k
  }

  predicate NoDuplicates(s: seq<string>) {
    forall i, j :: 0 <= i < j < |s| ==> s[i] != s[j]
  }

  /** Every outer label of a row appears once, and nothing else does. */
  lemma {:induction false} FirstKeysFacts(rows: seq<ResultRow>)
    ensures NoDuplicates(FirstKeys(rows))
    ensures forall k :: k in FirstKeys(rows) <==> HasGroup(rows, k)
    decreases |rows|
  {
    if rows != [] {
      var pre := rows[..|rows| - 1];
      FirstKeysFacts(pre);
      forall k ensures HasGroup(rows, k) <==> HasGroup(pre, k) || GroupKey(rows[|rows| - 1]) == k {
        if HasGroup(rows, k) {
          var i :| 0 <= i < |rows| && GroupKey(rows[i]) == k;
          if i < |pre| { assert pre[i] == rows[i]; }
        }
        if HasGroup(pre, k) {
          var i :| 0 <= i < |pre| && GroupKey(pre[i]) == k;
          assert rows[i] == pre[i];
        }
      }
    }
  }

  /** The labels of a group: each label of a row of the group once, and
      nothing else (duplicate labels are suppressed). */
  lemma {:induction false} FirstTfsFacts(clock: Clock, rows: seq<ResultRow>, k: string)
    ensures NoDuplicates(FirstTfs(clock, rows, k))
    ensures forall tf :: tf in FirstTfs(clock, rows, k) <==> InGroup(clock, rows, k, tf)
    decreases |rows|
  {
    if rows != [] {
      var pre := rows[..|rows| - 1];
      var last := rows[|rows| - 1];
      FirstTfsFacts(clock, pre, k);
      forall tf ensures InGroup(clock, rows, k, tf) <==> InGroup(clock, pre, k, tf) || (GroupKey(last) == k && TfLabel(clock, last) == tf) {
        if InGroup(clock, rows, k, tf) {
          var i :| 0 <= i < |rows| && GroupKey(rows[i]) == k && TfLabel(clock, rows[i]) == tf;
          if i < |pre| { assert pre[i] == rows[i]; }
        }
        if InGroup(clock, pre, k, tf) {
          var i :| 0 <= i < |pre| && GroupKey(pre[i]) == k && TfLabel(clock, pre[i]) == tf;
          assert rows[i] == pre[i];
        }
      }
    }
  }

  lemma {:induction false} FirstTfsUnseen(clock: Clock, rows: seq<ResultRow>, k: string)
    requires k !in FirstKeys(rows)
    ensures FirstTfs(clock, rows, k) == []
    decreases |rows|
  {
    if rows != [] {
      FirstTfsUnseen(clock, rows[..|rows| - 1], k);
    }
  }

  /** data_dict never holds a group twice. */
  lemma {:induction false} GroupUnique(clock: Clock, rows: seq<ResultRow>)
    ensures UniqueKeys(GroupSpec(clock, rows))
    decreases |rows|
  {
    if rows != [] {
      var pre := rows[..|rows| - 1];
      var last := rows[|rows| - 1];
      GroupUnique(clock, pre);
      var d := GroupSpec(clock, pre);
      var tfs := TfsOf(d, GroupKey(last));
      var tf := TfLabel(clock, last);
      PutUnique(d, GroupKey(last), if tf in tfs then tfs else tfs + [tf]);
    }
  }

  /** How one more row changes the reference groups */
  lemma FirstSnoc(clock: Clock, rows: seq<ResultRow>, k: string)
    requires rows != []
    ensures var pre := rows[..|rows| - 1];
      var last := rows[|rows| - 1];
      && (k in FirstKeys(rows) <==> k in FirstKeys(pre) || k == GroupKey(last))
      && FirstTfs(clock, rows, k) ==
           if k == GroupKey(last) && TfLabel(clock, last) !in FirstTfs(clock, pre, k)
           then FirstTfs(clock, pre, k) + [TfLabel(clock, last)] else FirstTfs(clock, pre, k)
  {
  }

  /** data_dict holds exactly the groups of the rows, each with its labels in
      order of first appearance. */
  lemma {:induction false} GroupContents(clock: Clock, rows: seq<ResultRow>)
    ensures forall k :: Get(GroupSpec(clock, rows), k) == if k in FirstKeys(rows) then Some(FirstTfs(clock, rows, k)) else None
    decreases |rows|
  {
    if rows != [] {
      var pre := rows[..|rows| - 1];
      var last := rows[|rows| - 1];
      var key := GroupKey(last);
      var tf := TfLabel(clock, last);
      GroupContents(clock, pre);
      var d := GroupSpec(clock, pre);
      var tfs := TfsOf(d, key);
      if key !in FirstKeys(pre) {
        FirstTfsUnseen(clock, pre, key);
      }
      assert tfs == FirstTfs(clock, pre, key);
      var v := if tf in tfs then tfs else tfs + [tf];
      PutKeys(d, key, v);
      var r := GroupSpec(clock, rows);
      assert r == Put(d, key, v);
      forall k ensures Get(r, k) == if k in FirstKeys(rows) then Some(FirstTfs(clock, rows, k)) else None {
        FirstSnoc(clock, rows, k);
      }
    }
  }

  /** The groups come in order of first appearance. */
  lemma {:induction false} GroupKeys(clock: Clock, rows: seq<ResultRow>)
    ensures Keys(GroupSpec(clock, rows)) == FirstKeys(rows)
    decreases |rows|
  {
    if rows != [] {
      var pre := rows[..|rows| - 1];
      var last := rows[|rows| - 1];
      var key := GroupKey(last);
      GroupKeys(clock, pre);
      var d := GroupSpec(clock, pre);
      var tfs := TfsOf(d, key);
      var tf := TfLabel(clock, last);
      var v := if tf in tfs then tfs else tfs + [tf];
      assert key in Keys(d) <==> HasKey(d, key);
      if HasKey(d, key) {
        PutExistingKeys(d, key, v);
      } else {
        assert Keys(d + [Entry(key, v)]) == Keys(d) + [key];
      }
    }
  }

  /** The inner nodes of a group: unchecked, owned by the group, all with
      the same time text */
  function TfNodes(clock: Clock, t: real, owner: string, tfs: seq<string>): (ns: seq<Node>)
    ensures |ns| == |tfs|
  {
    seq(|tfs|, j requires 0 <= j < |tfs| => Node(tfs[j], clock.show(t), owner, false, []))
  }

  function GroupNode(clock: Clock, t: real, e: Entry<seq<string>>): Node {
    Node(e.key, "", "", false, TfNodes(clock, t, e.key, e.value))
  }

  /** The second loop, with `t` the time left in the first loop's variable */
  function TreeOf(clock: Clock, t: real, d: Dict<seq<string>>): (tree: seq<Node>)
    ensures |tree| == |d|
  {
    seq(|d|, i requires 0 <= i < |d| => GroupNode(clock, t, d[i]))
  }

  /** The tree for the rows; every inner node carries the time of the last row. */
  function TreeSpec(clock: Clock, rows: seq<ResultRow>): seq<Node> {
    if rows == [] then [] else TreeOf(clock, rows[|rows| - 1].time, GroupSpec(clock, rows))
  }

  /** The first loop: data_dict, and the time of the last row */
  method GroupRows(clock: Clock, rows: seq<ResultRow>) returns (data: Dict<seq<string>>, analyzetime: real)
    ensures data == GroupSpec(clock, rows)
    ensures rows != [] ==> analyzetime == rows[|rows| - 1].time
  {
    data := [];
    analyzetime := 0.0;
    var i := 0;
    while i < |rows|
      invariant 0 <= i <= |rows|
      invariant data == GroupSpec(clock, rows[..i])
      invariant i > 0 ==> analyzetime == rows[i - 1].time
    {
      analyzetime := rows[i].time;
      data := GroupNext(clock, rows, i, data);
      i := i + 1;
    }
    assert rows[..i] == rows;
  }

  /** One row of the first loop */
  method GroupNext(clock: Clock, rows: seq<ResultRow>, i: nat, data: Dict<seq<string>>) returns (next: Dict<seq<string>>)
    requires i < |rows| && data == GroupSpec(clock, rows[..i])
    ensures next == GroupSpec(clock, rows[..i + 1])
  {
    assert rows[..i + 1][..i] == rows[..i];
    var key := GroupKey(rows[i]);
    var tf := TfLabel(clock, rows[i]);
    var tfs := TfsOf(data, key);
    if tf !in tfs {
      tfs := tfs + [tf];
    }
    next := Put(data, key, tfs);
  }

  /** The inner loop of the second loop */
  method ChildNodes(clock: Clock, t: real, owner: string, tfs: seq<string>) returns (children: seq<Node>)
    ensures children == TfNodes(clock, t, owner, tfs)
  {
    children := [];
    var j := 0;
    while j < |tfs|
      invariant 0 <= j <= |tfs|
      invariant |children| == j
      invariant forall m :: 0 <= m < j ==> children[m] == Node(tfs[m], clock.show(t), owner, false, [])
    {
      children := children + [Node(tfs[j], clock.show(t), owner, false, [])];
      j := j + 1;
    }
  }

  /** One group of the second loop */
  method GroupNodeOf(clock: Clock, t: real, e: Entry<seq<string>>) returns (node: Node)
    ensures node == GroupNode(clock, t, e)
  {
    var children := ChildNodes(clock, t, e.key, e.value);
    node := Node(e.key, "", "", false, children);
  }

  method BuildTree(clock: Clock, rows: seq<ResultRow>) returns (tree: seq<Node>)
    ensures tree == TreeSpec(clock, rows)
  {
    var data, analyzetime := GroupRows(clock, rows);
    tree := [];
    var k := 0;
    while k < |data|
      invariant 0 <= k <= |data|
      invariant |tree| == k
      invariant forall m :: 0 <= m < k ==> tree[m] == GroupNode(clock, analyzetime, data[m])
    {
      var node := GroupNodeOf(clock, analyzetime, data[k]);
      tree := tree + [node];
      k := k + 1;
    }
    if rows == [] {
      assert data == [];
    } else {
      assert tree == TreeOf(clock, analyzetime, data);
    }
  }

  /** The node of group `key` as the tree holds it */
  predicate GroupNodeFor(clock: Clock, t: real, rows: seq<ResultRow>, key: string, n: Node) {
    && n.item == key && n.kind == "" && n.belongsTo == "" && !n.checked
    && |n.children| == |FirstTfs(clock, rows, key)|
    && forall j :: 0 <= j < |n.children| ==>
         n.children[j] == Node(FirstTfs(clock, rows, key)[j], clock.show(t), key, false, [])
  }

  /** The tree: one unchecked node per group in order of first appearance,
      holding one unchecked node per distinct label of the group, each
      belonging to the group and carrying the time of the last row. */
  lemma TreeContents(clock: Clock, rows: seq<ResultRow>)
    ensures rows == [] ==> TreeSpec(clock, rows) == []
    ensures rows != [] ==>
      var tree := TreeSpec(clock, rows);
      && |tree| == |FirstKeys(rows)|
      && forall i :: 0 <= i < |tree| ==> GroupNodeFor(clock, rows[|rows| - 1].time, rows, FirstKeys(rows)[i], tree[i])
  {
    if rows != [] {
      var d := GroupSpec(clock, rows);
      var t := rows[|rows| - 1].time;
      GroupUnique(clock, rows);
      GroupContents(clock, rows);
      GroupKeys(clock, rows);
      var tree := TreeSpec(clock, rows);
      forall i | 0 <= i < |tree| ensures GroupNodeFor(clock, t, rows, FirstKeys(rows)[i], tree[i]) {
        assert Keys(d)[i] == d[i].key == FirstKeys(rows)[i];
        GetUnique(d, i);
        assert d[i].value == FirstTfs(clock, rows, d[i].key);
        assert tree[i] == GroupNode(clock, t, d[i]);
      }
    }
  }

  // --------------------------------------------------------------------
  // getChecked
  // --------------------------------------------------------------------

  /** `[item, type]` of each node, in order */
  function Pairs(ns: seq<Node>): (ps: seq<(string, string)>)
    ensures |ps| == |ns|
    ensures forall i :: 0 <= i < |ns| ==> ps[i] == (ns[i].item, ns[i].kind)
    decreases |ns|
  {
    if ns == [] then []
    else Pairs(ns[..|ns| - 1]) + [(ns[|ns| - 1].item, ns[|ns| - 1].kind)]
  }

  /** The checked nodes, in order */
  function CheckedOnly(ns: seq<Node>): seq<Node>
    decreases |ns|
  {
    if ns == [] then []
    else CheckedOnly(ns[..|ns| - 1]) + (if ns[|ns| - 1].checked then [ns[|ns| - 1]] else [])
  }

  /** CheckedOnly keeps exactly the checked nodes ... */
  lemma {:induction false} CheckedOnlyMembers(ns: seq<Node>)
    ensures forall n :: n in CheckedOnly(ns) <==> n in ns && n.checked
    decreases |ns|
  {
    if ns != [] {
      var pre := ns[..|ns| - 1];
      CheckedOnlyMembers(pre);
      assert ns == pre + [ns[|ns| - 1]];
    }
  }

  /** ... in their order: filtering a concatenation filters each part. */
  lemma {:induction false} CheckedOnlyConcat(a: seq<Node>, b: seq<Node>)
    ensures CheckedOnly(a + b) == CheckedOnly(a) + CheckedOnly(b)
    decreases |b|
  {
    if b != [] {
      var pre := b[..|b| - 1];
      assert (a + b)[..|a + b| - 1] == a + pre;
      CheckedOnlyConcat(a, pre);
    } else {
      assert a + b == a;
    }
  }

  /** What one biosource object contributes: all children when it is
      checked, otherwise only its checked children */
  function Selection(b: Node): seq<(string, string)> {
    if b.checked then Pairs(b.children) else Pairs(CheckedOnly(b.children))
  }

  /** whats_checked_bio_tf: a repeated biosource keeps its first position and
      its last selection */
  function CheckedSpec(data: seq<Node>): Dict<seq<(string, string)>>
    decreases |data|
  {
    if data == [] then []
    else
      var last := data[|data| - 1];
      Put(CheckedSpec(data[..|data| - 1]), last.item, Selection(last))
  }

  /** The entries with a non-empty selection, in order */
  function NonEmptyOnly(d: Dict<seq<(string, string)>>): Dict<seq<(string, string)>>
    decreases |d|
  {
    if d == [] then []
    else NonEmptyOnly(d[..|d| - 1]) + (if d[|d| - 1].value != [] then [d[|d| - 1]] else [])
  }

  function GetCheckedSpec(data: seq<Node>): Dict<seq<(string, string)>> {
    NonEmptyOnly(CheckedSpec(data))
  }

  /** The inner loops: the pairs one biosource object contributes */
  method SelectionOf(b: Node) returns (sel: seq<(string, string)>)
    ensures sel == Selection(b)
  {
    sel := [];
    var j := 0;
    while j < |b.children|
      invariant 0 <= j <= |b.children|
      invariant sel == if b.checked then Pairs(b.children[..j]) else Pairs(CheckedOnly(b.children[..j]))
    {
      assert b.children[..j + 1][..j] == b.children[..j];
      var child := b.children[j];
      if b.checked || child.checked {
        sel := sel + [(child.item, child.kind)];
      }
      j := j + 1;
    }
    assert b.children[..j] == b.children;
  }

  /** The removal of empty biosources */
  method DropEmpty(whats: Dict<seq<(string, string)>>) returns (onlyChecked: Dict<seq<(string, string)>>)
    ensures onlyChecked == NonEmptyOnly(whats)
  {
    onlyChecked := [];
    var k := 0;
    while k < |whats|
      invariant 0 <= k <= |whats|
      invariant onlyChecked == NonEmptyOnly(whats[..k])
    {
      assert whats[..k + 1][..k] == whats[..k];
      if whats[k].value != [] {
        onlyChecked := onlyChecked + [whats[k]];
      }
      k := k + 1;
    }
    assert whats[..k] == whats;
  }

  method GetChecked(data: seq<Node>) returns (onlyChecked: Dict<seq<(string, string)>>)
    ensures onlyChecked == GetCheckedSpec(data)
  {
    var whats: Dict<seq<(string, string)>> := [];
    var i := 0;
    while i < |data|
      invariant 0 <= i <= |data|
      invariant whats == CheckedSpec(data[..i])
    {
      assert data[..i + 1][..i] == data[..i];
      var sel := SelectionOf(data[i]);
      whats := Put(whats, data[i].item, sel);
      i := i + 1;
    }
    assert data[..i] == data;
    onlyChecked := DropEmpty(whats);
  }

  /** Reference: the selection of the last object carrying item `b` */
  function LastSelection(data: seq<Node>, b: string): Option<seq<(string, string)>>
    decreases |data|
  {
    if data == [] then None
    else if data[|data| - 1].item == b then Some(Selection(data[|data| - 1]))
    else LastSelection(data[..|data| - 1], b)
  }

  lemma {:induction false} CheckedContents(data: seq<Node>)
    ensures UniqueKeys(CheckedSpec(data))
    ensures forall b :: Get(CheckedSpec(data), b) == LastSelection(data, b)
    decreases |data|
  {
    if data != [] {
      var pre := data[..|data| - 1];
      var last := data[|data| - 1];
      CheckedContents(pre);
      PutKeys(CheckedSpec(pre), last.item, Selection(last));
      PutUnique(CheckedSpec(pre), last.item, Selection(last));
    }
  }

  /** The filtered dict holds no empty selection. */
  lemma {:induction false} NonEmptyValues(d: Dict<seq<(string, string)>>)
    ensures forall i :: 0 <= i < |NonEmptyOnly(d)| ==> NonEmptyOnly(d)[i].value != []
    decreases |d|
  {
    if d != [] {
      NonEmptyValues(d[..|d| - 1]);
    }
  }

  /** The filtered dict finds under each key the selection stored there, when non-empty. */
  lemma {:induction false} NonEmptyGet(d: Dict<seq<(string, string)>>)
    requires UniqueKeys(d)
    ensures forall b :: Get(NonEmptyOnly(d), b) == match Get(d, b) { case Some(s) => if s != [] then Some(s) else None case None => None }
    decreases |d|
  {
    if d != [] {
      var pre := d[..|d| - 1];
      var last := d[|d| - 1];
      SnocUnique(d);
      NonEmptyGet(pre);
      var q := NonEmptyOnly(pre);
      assert d == pre + [last];
      forall b ensures Get(d, b) == if b == last.key then Some(last.value) else Get(pre, b) {
        GetSnoc(pre, last, b);
      }
      assert Get(q, last.key) == None;
      var r := NonEmptyOnly(d);
      if last.value != [] {
        assert r == q + [last];
        forall b ensures Get(r, b) == match Get(d, b) { case Some(s) => if s != [] then Some(s) else None case None => None } {
          GetSnoc(q, last, b);
        }
      } else {
        assert r == q;
      }
    }
  }

  /** The filtered dict holds no key twice. */
  lemma {:induction false} NonEmptyUnique(d: Dict<seq<(string, string)>>)
    requires UniqueKeys(d)
    ensures UniqueKeys(NonEmptyOnly(d))
    decreases |d|
  {
    if d != [] {
      var pre := d[..|d| - 1];
      var last := d[|d| - 1];
      SnocUnique(d);
      NonEmptyUnique(pre);
      NonEmptyGet(pre);
      var q := NonEmptyOnly(pre);
      assert Get(pre, last.key) == None;
      assert Get(q, last.key) == None;
      if last.value != [] {
        UniqueSnoc(q, last);
      }
    }
  }

  /** getChecked: each biosource item maps to its (last) selection when that
      is non-empty and is absent otherwise; no item appears twice and no
      selection is empty. */
  lemma GetCheckedContents(data: seq<Node>)
    ensures UniqueKeys(GetCheckedSpec(data))
    ensures forall i :: 0 <= i < |GetCheckedSpec(data)| ==> GetCheckedSpec(data)[i].value != []
    ensures forall b :: Get(GetCheckedSpec(data), b) == match LastSelection(data, b) { case Some(s) => if s != [] then Some(s) else None case None => None }
  {
    CheckedContents(data);
    NonEmptyValues(CheckedSpec(data));
    NonEmptyGet(CheckedSpec(data));
    NonEmptyUnique(CheckedSpec(data));
  }

  /** A checked biosource selects every child, whatever the child's flag. */
  lemma SelectionChecked(b: Node)
    requires b.checked
    ensures |Selection(b)| == |b.children|
    ensures forall i :: 0 <= i < |b.children| ==> Selection(b)[i] == (b.children[i].item, b.children[i].kind)
  {
  }

  /** An unchecked biosource selects exactly its checked children. */
  lemma SelectionUnchecked(b: Node)
    requires !b.checked
    ensures forall p :: p in Selection(b) <==> exists n :: n in b.children && n.checked && p == (n.item, n.kind)
  {
    var cs := CheckedOnly(b.children);
    CheckedOnlyMembers(b.children);
    forall p ensures p in Selection(b) <==> exists n :: n in b.children && n.checked && p == (n.item, n.kind) {
      if p in Selection(b) {
        var i :| 0 <= i < |cs| && Pairs(cs)[i] == p;
        assert cs[i] in cs;
      }
      if exists n :: n in b.children && n.checked && p == (n.item, n.kind) {
        var n :| n in b.children && n.checked && p == (n.item, n.kind);
        var i :| 0 <= i < |cs| && cs[i] == n;
        assert Pairs(cs)[i] == p;
      }
    }
  }

  /** An unchecked biosource keeps the order of its children: the selection
      of children `a + c` is that of `a` followed by that of `c`. */
  lemma SelectionOrder(b: Node, a: seq<Node>, c: seq<Node>)
    requires !b.checked && b.children == a + c
    ensures Selection(b) == Selection(b.(children := a)) + Selection(b.(children := c))
  {
    CheckedOnlyConcat(a, c);
    PairsConcat(CheckedOnly(a), CheckedOnly(c));
  }

  lemma PairsConcat(a: seq<Node>, c: seq<Node>)
    ensures Pairs(a + c) == Pairs(a) + Pairs(c)
  {
    assert forall i :: 0 <= i < |a + c| ==> Pairs(a + c)[i] == (Pairs(a) + Pairs(c))[i];
  }

  // --------------------------------------------------------------------
  // getRawData
  // --------------------------------------------------------------------

  /** The key of a selected label: its comma-separated parts 0 and 2 joined
      by ", " (None: IndexError, fewer than three parts) */
  function RawKey(text: string): Option<string> {
    var parts := Split(text, ',');
    if |parts| < 3 then None else Some(parts[0] + ", " + parts[2])
  }

  lemma NoCommaConcat(a: string, b: string)
    requires !HasChar(a, ',') && !HasChar(b, ',')
    ensures !HasChar(a + b, ',')
  {
    forall i | 0 <= i < |a + b| ensures (a + b)[i] != ',' {
      if i < |a| { assert (a + b)[i] == a[i]; } else { assert (a + b)[i] == b[i - |a|]; }
    }
  }

  /** For a label the tree built, from a tf name, width and time text free of
      commas, the key is the tf name, ", " and the " analyzed: ..." part (so
      the width is dropped and two spaces follow the comma). */
  lemma RawKeyOfLabel(clock: Clock, r: ResultRow)
    requires !HasChar(r.tf, ',') && !HasChar(r.width, ',') && !HasChar(clock.asctime(r.time), ',')
    ensures RawKey(TfLabel(clock, r)) == Some(r.tf + ",  analyzed: " + clock.asctime(r.time))
  {
    var w := " width: " + r.width;
    var a := " analyzed: " + clock.asctime(r.time);
    assert !HasChar(" width: ", ',') && !HasChar(" analyzed: ", ',');
    NoCommaConcat(" width: ", r.width);
    NoCommaConcat(" analyzed: ", clock.asctime(r.time));
    var parts := [r.tf, w, a];
    assert Join(parts, [',']) == TfLabel(clock, r) by {
      assert Join(parts[2..], [',']) == a;
      assert Join(parts[1..], [',']) == w + [','] + a;
      assert ", width: " == [','] + " width: ";
      assert ", analyzed: " == [','] + " analyzed: ";
    }
    SplitJoin(parts, ',');
    assert Split(TfLabel(clock, r), ',') == parts;
    assert RawKey(TfLabel(clock, r)) == Some(r.tf + ", " + a);
    assert r.tf + ", " + a == r.tf + ",  analyzed: " + clock.asctime(r.time) by {
      assert ", " + " analyzed: " == ",  analyzed: ";
    }
  }
}
