/** Interval tracks as the bigWig codec presents them: per chromosome a length
    and an ordered sequence of (start, end, value) intervals. The codec itself
    is not modelled; `Query` is its `intervals(chrom, start, end)` call. */
module Tracks {

  datatype Interval = Interval(start: int, end: int, value: real)

  datatype Chrom = Chrom(length: nat, intervals: seq<Interval>)

  /** chromosome name -> its length and stored intervals (`chroms()` is the key set) */
  type Track = map<string, Chrom>

  /** Stored intervals are non-empty, sorted and pairwise non-overlapping. */
  predicate Disjoint(ivs: seq<Interval>) {
    && (forall i :: 0 <= i < |ivs| ==> ivs[i].start < ivs[i].end)
    && (forall i, j :: 0 <= i < j < |ivs| ==> ivs[i].end <= ivs[j].start)
  }

  /** ... and lie within the chromosome. */
  predicate WellFormedChrom(c: Chrom) {
    Disjoint(c.intervals) &&
    forall i :: 0 <= i < |c.intervals| ==> 0 <= c.intervals[i].start && c.intervals[i].end <= c.length
  }

  predicate WellFormed(t: Track) {
    forall c :: c in t ==> WellFormedChrom(t[c])
  }

  /** Every stored value lies in [lo, hi]. */
  predicate ValuesIn(ivs: seq<Interval>, lo: real, hi: real) {
    forall i :: 0 <= i < |ivs| ==> lo <= ivs[i].value <= hi
  }

  predicate TrackValuesIn(t: Track, lo: real, hi: real) {
    forall c :: c in t ==> ValuesIn(t[c].intervals, lo, hi)
  }

  /** The interval shares at least one position with [s, e). */
  predicate Overlaps(iv: Interval, s: int, e: int) {
    iv.start < e && iv.end > s
  }

  /** `intervals(chrom, s, e)`: the stored intervals overlapping [s, e), in stored order */
  function Query(ivs: seq<Interval>, s: int, e: int): seq<Interval>
    decreases |ivs|
  {
    if ivs == [] then []
    else
      var last := ivs[|ivs| - 1];
      Query(ivs[..|ivs| - 1], s, e) + (if Overlaps(last, s, e) then [last] else [])
  }

  /** The windows `intervals(chrom, s, e)` accepts; for any other (a start
      below 0, an empty window, an end past the chromosome length) it raises
      RuntimeError ("Invalid interval bounds"). */
  predicate QueryBounds(c: Chrom, s: int, e: int) {
    0 <= s < e <= c.length
  }

  /** What a query returns: stored intervals, each overlapping the window; from
      a well-formed chromosome again sorted and non-overlapping. */
  lemma QueryProperties(ivs: seq<Interval>, s: int, e: int)
    ensures forall i :: 0 <= i < |Query(ivs, s, e)| ==>
              Query(ivs, s, e)[i] in ivs && Overlaps(Query(ivs, s, e)[i], s, e)
    ensures Disjoint(ivs) ==> Disjoint(Query(ivs, s, e))
    ensures |Query(ivs, s, e)| <= |ivs|
  {
    QueryMembers(ivs, s, e);
    if Disjoint(ivs) {
      QueryDisjoint(ivs, s, e);
    }
  }

  lemma {:induction false} QueryMembers(ivs: seq<Interval>, s: int, e: int)
    ensures forall i :: 0 <= i < |Query(ivs, s, e)| ==>
              Query(ivs, s, e)[i] in ivs && Overlaps(Query(ivs, s, e)[i], s, e)
    ensures |Query(ivs, s, e)| <= |ivs|
    decreases |ivs|
  {
    if ivs != [] {
      var pre := ivs[..|ivs| - 1];
      var last := ivs[|ivs| - 1];
      QueryMembers(pre, s, e);
      var q := Query(pre, s, e);
      var r := Query(ivs, s, e);
      assert r == q + (if Overlaps(last, s, e) then [last] else []);
      forall i | 0 <= i < |r| ensures r[i] in ivs && Overlaps(r[i], s, e) {
        if i < |q| { assert r[i] == q[i]; assert q[i] in pre; } else { assert r[i] == last; }
      }
    }
  }

  lemma {:induction false} QueryDisjoint(ivs: seq<Interval>, s: int, e: int)
    requires Disjoint(ivs)
    ensures Disjoint(Query(ivs, s, e))
    decreases |ivs|
  {
    if ivs != [] {
      var pre := ivs[..|ivs| - 1];
      var last := ivs[|ivs| - 1];
      assert Disjoint(pre) by {
        forall i, j | 0 <= i < j < |pre| ensures pre[i].end <= pre[j].start {
          assert pre[i] == ivs[i] && pre[j] == ivs[j];
        }
      }
      QueryDisjoint(pre, s, e);
      QueryMembers(pre, s, e);
      var q := Query(pre, s, e);
      var r := Query(ivs, s, e);
      assert r == q + (if Overlaps(last, s, e) then [last] else []);
      forall x | x in pre ensures x.end <= last.start && x.start < x.end {
        var k :| 0 <= k < |pre| && pre[k] == x;
        assert ivs[k] == x;
      }
      forall i, j | 0 <= i < j < |r| ensures r[i].end <= r[j].start {
        if j < |q| {
          assert r[i] == q[i] && r[j] == q[j];
        } else {
          assert r[i] == q[i] && q[i] in pre;
        }
      }
      forall i | 0 <= i < |r| ensures r[i].start < r[i].end {
        if i < |q| { assert r[i] == q[i] && q[i] in pre; }
      }
    }
  }

  /** A query keeps values within any range the stored values keep to. */
  lemma QueryValuesIn(ivs: seq<Interval>, s: int, e: int, lo: real, hi: real)
    requires ValuesIn(ivs, lo, hi)
    ensures ValuesIn(Query(ivs, s, e), lo, hi)
  {
    var q := Query(ivs, s, e);
    QueryProperties(ivs, s, e);
    forall i | 0 <= i < |q| ensures lo <= q[i].value <= hi {
      var j :| 0 <= j < |ivs| && ivs[j] == q[i];
    }
  }

  /** In sorted, non-overlapping intervals the last one ends last. */
  lemma EndsBelowLast(ivs: seq<Interval>)
    requires Disjoint(ivs)
    ensures forall i :: 0 <= i < |ivs| ==> ivs[i].end <= ivs[|ivs| - 1].end
  {
    forall i | 0 <= i < |ivs| ensures ivs[i].end <= ivs[|ivs| - 1].end {
      if i < |ivs| - 1 {
        assert ivs[i].end <= ivs[|ivs| - 1].start;
      }
    }
  }

  /** For a query window starting where the intervals before index k have all
      ended and the rest have not yet started, the query returns a contiguous
      run ivs[k..k2]; everything after the run starts at or after the window end. */
  lemma {:induction false} QuerySlice(ivs: seq<Interval>, k: nat, s: int, e: int) returns (k2: nat)
    requires Disjoint(ivs) && k <= |ivs| && s < e
    requires forall j :: 0 <= j < k ==> ivs[j].end <= s
    requires forall j :: k <= j < |ivs| ==> ivs[j].start >= s
    ensures k <= k2 <= |ivs|
    ensures Query(ivs, s, e) == ivs[k..k2]
    ensures forall j :: k2 <= j < |ivs| ==> ivs[j].start >= e
    decreases |ivs|
  {
    var n := |ivs|;
    if k == n {
      QueryNone(ivs, s, e);
      return n;
    }
    var pre := ivs[..n - 1];
    PrefixSliceFacts(ivs, k, s);
    var k2p := QuerySlice(pre, k, s, e);
    assert forall j :: k2p <= j < n - 1 ==> pre[j] == ivs[j];
    k2 := QuerySliceStep(ivs, k, k2p, s, e);
  }

  /** The preconditions of QuerySlice carry over from the intervals to all but the last. */
  lemma PrefixSliceFacts(ivs: seq<Interval>, k: nat, s: int)
    requires Disjoint(ivs) && k < |ivs|
    requires forall j :: 0 <= j < k ==> ivs[j].end <= s
    requires forall j :: k <= j < |ivs| ==> ivs[j].start >= s
    ensures var pre := ivs[..|ivs| - 1];
      && Disjoint(pre) && k <= |pre|
      && (forall j :: 0 <= j < k ==> pre[j].end <= s)
      && (forall j :: k <= j < |pre| ==> pre[j].start >= s)
  {
    DisjointPrefix(ivs);
  }

  /** The step of QuerySlice: the run over all but the last interval either
      takes the last one in (it starts before the window end) or stops. */
  lemma QuerySliceStep(ivs: seq<Interval>, k: nat, k2p: nat, s: int, e: int) returns (k2: nat)
    requires Disjoint(ivs) && k < |ivs| && s < e
    requires forall j :: k <= j < |ivs| ==> ivs[j].start >= s
    requires k <= k2p <= |ivs| - 1
    requires Query(ivs[..|ivs| - 1], s, e) == ivs[..|ivs| - 1][k..k2p]
    requires forall j :: k2p <= j < |ivs| - 1 ==> ivs[j].start >= e
    ensures k <= k2 <= |ivs|
    ensures Query(ivs, s, e) == ivs[k..k2]
    ensures forall j :: k2 <= j < |ivs| ==> ivs[j].start >= e
  {
    var n := |ivs|;
    var last := ivs[n - 1];
    SlicePrefix(ivs, n - 1, k, k2p);
    QueryLast(ivs, s, e);
    LastAfterRun(ivs, k2p, e);
    if last.start < e {
      k2 := n;
      assert ivs[k..n] == ivs[k..n - 1] + [last];
    } else {
      k2 := k2p;
    }
  }

  /** A slice of a prefix is the same slice of the whole sequence. */
  lemma SlicePrefix(ivs: seq<Interval>, m: nat, a: nat, b: nat)
    requires a <= b <= m <= |ivs|
    ensures ivs[..m][a..b] == ivs[a..b]
  {
    forall j | 0 <= j < b - a ensures ivs[..m][a..b][j] == ivs[a..b][j] {
      assert ivs[..m][a..b][j] == ivs[..m][a + j] == ivs[a + j];
    }
  }

  /** The query of a non-empty sequence: that of all but the last interval, then the last one if it overlaps. */
  lemma QueryLast(ivs: seq<Interval>, s: int, e: int)
    requires ivs != []
    ensures Query(ivs, s, e) == Query(ivs[..|ivs| - 1], s, e) + (if Overlaps(ivs[|ivs| - 1], s, e) then [ivs[|ivs| - 1]] else [])
  {
  }

  /** In sorted disjoint intervals, an interval at or after k2p that starts at
      or after e means the last one does too. */
  lemma LastAfterRun(ivs: seq<Interval>, k2p: nat, e: int)
    requires Disjoint(ivs) && k2p <= |ivs| - 1
    requires forall j :: k2p <= j < |ivs| - 1 ==> ivs[j].start >= e
    ensures k2p < |ivs| - 1 ==> ivs[|ivs| - 1].start >= e
  {
    if k2p < |ivs| - 1 {
      assert ivs[k2p].start >= e;
      assert ivs[k2p].start < ivs[k2p].end <= ivs[|ivs| - 1].start;
    }
  }

  /** Intervals that all end by the window start give an empty query. */
  lemma {:induction false} QueryNone(ivs: seq<Interval>, s: int, e: int)
    requires forall j :: 0 <= j < |ivs| ==> ivs[j].end <= s
    ensures Query(ivs, s, e) == []
    decreases |ivs|
  {
    if ivs != [] {
      var pre := ivs[..|ivs| - 1];
      assert forall j :: 0 <= j < |pre| ==> pre[j] == ivs[j];
      QueryNone(pre, s, e);
    }
  }

  /** Dropping the last interval keeps the rest sorted and non-overlapping. */
  lemma DisjointPrefix(ivs: seq<Interval>)
    requires Disjoint(ivs) && ivs != []
    ensures Disjoint(ivs[..|ivs| - 1])
  {
    var pre := ivs[..|ivs| - 1];
    forall i, j | 0 <= i < j < |pre| ensures pre[i].end <= pre[j].start {
      assert pre[i] == ivs[i] && pre[j] == ivs[j];
    }
  }

  /** Same interval boundaries, position by position (values may differ) */
  predicate SameBounds(a: seq<Interval>, b: seq<Interval>) {
    |a| == |b| && forall i :: 0 <= i < |a| ==> a[i].start == b[i].start && a[i].end == b[i].end
  }

  /** QuerySlice, plus: every interval of the run starts before the window end. */
  lemma QueryRun(ivs: seq<Interval>, k: nat, s: int, e: int) returns (k2: nat)
    requires Disjoint(ivs) && k <= |ivs| && s < e
    requires forall j :: 0 <= j < k ==> ivs[j].end <= s
    requires forall j :: k <= j < |ivs| ==> ivs[j].start >= s
    ensures k <= k2 <= |ivs|
    ensures Query(ivs, s, e) == ivs[k..k2]
    ensures forall j :: k <= j < k2 ==> ivs[j].start < e
    ensures forall j :: k2 <= j < |ivs| ==> ivs[j].start >= e
  {
    k2 := QuerySlice(ivs, k, s, e);
    QueryProperties(ivs, s, e);
    forall j | k <= j < k2 ensures ivs[j].start < e {
      assert ivs[j] == Query(ivs, s, e)[j - k];
    }
  }

  /** Two interval lists with the same boundaries answer a window with runs
      at the same positions. */
  lemma QueryRunPair(a: seq<Interval>, b: seq<Interval>, k: nat, s: int, e: int) returns (k2: nat)
    requires Disjoint(a) && SameBounds(a, b) && k <= |a| && s < e
    requires forall j :: 0 <= j < k ==> a[j].end <= s
    requires forall j :: k <= j < |a| ==> a[j].start >= s
    ensures k <= k2 <= |a|
    ensures Query(a, s, e) == a[k..k2] && Query(b, s, e) == b[k..k2]
    ensures forall j :: k <= j < k2 ==> a[j].start < e
    ensures forall j :: k2 <= j < |a| ==> a[j].start >= e
  {
    assert Disjoint(b) by {
      forall i, j | 0 <= i < j < |b| ensures b[i].end <= b[j].start {
        assert a[i].end <= a[j].start;
      }
    }
    k2 := QueryRun(a, k, s, e);
    var k3 := QueryRun(b, k, s, e);
    assert k3 < |a| ==> a[k3].start == b[k3].start;
    assert k2 < |a| ==> a[k2].start == b[k2].start;
  }
}
