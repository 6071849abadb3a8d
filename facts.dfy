/**
 * What `create_main_table` promises about the whole listing: which
 * directories give rows and warnings, which end the run with an error, and
 * what the returned `fylker` holds.
 */
module TableFacts {
  import opened PyStr
  import opened Classify
  import opened Region
  import opened MainTable

  // ------------------------------------------------ one directory's share

  /** The fylke pair directory e contributes, as a list of zero or one. */
  function FylkeOf(e: DirEntry, kommuneNames: map<int, string>,
                   kommuneFylke: map<int, (string, int)>): seq<(string, int)>
  {
    if !e.isDir then []
    else match Resolve(e.name, kommuneNames, kommuneFylke)
      case Resolved(_, Some(t)) => [t]
      case _ => []
  }

  /**
   * What the row of a directory is made from: its code, kommune name, fylke
   * number and fylke cell, and the files its walk yields.
   */
  datatype RowHead = RowHead(code: string, kommuneName: string, fylkeNr: int, fylkeCell: string,
                             files: seq<(string, string)>)

  /**
   * The row directory e calls for, as a list of zero or one, given the
   * `fylke_nr` bound before it: a numbered region brings its own fylke
   * number, `ZZ` takes the one bound before (and has no row while none is).
   */
  function HeadOf(e: DirEntry, bound: Option<int>, kommuneNames: map<int, string>,
                  kommuneFylke: map<int, (string, int)>): seq<RowHead>
  {
    if !e.isDir then []
    else match Resolve(e.name, kommuneNames, kommuneFylke)
      case Resolved(kommuneName, Some(t)) => [RowHead(e.name, kommuneName, t.1, t.0 + " fylke", e.files)]
      case Resolved(kommuneName, None) =>
        if bound.Some? then [RowHead(e.name, kommuneName, bound.value, "", e.files)] else []
      case _ => []
  }

  /** The warning e is skipped with, if it is. */
  function WarningOf(e: DirEntry, kommuneNames: map<int, string>,
                     kommuneFylke: map<int, (string, int)>): seq<Warning>
  {
    if !e.isDir then []
    else match Resolve(e.name, kommuneNames, kommuneFylke)
      case Skipped(w) => [w]
      case _ => []
  }

  /**
   * e ends the loop with an error: its name is neither a number nor `ZZ`,
   * or it is `ZZ` while `fylke_nr` is still unbound.
   */
  predicate Blocks(e: DirEntry, bound: bool) {
    e.isDir &&
    ((ParseInt(e.name).None? && e.name != OutsideCode) || (e.name == OutsideCode && !bound))
  }

  /** The effect of one pass of the loop body on each of the loop's variables. */
  lemma StepSummary(s: State, e: DirEntry, kommuneNames: map<int, string>,
                    kommuneFylke: map<int, (string, int)>)
    ensures Step(s, e, kommuneNames, kommuneFylke).Stop? <==> Blocks(e, s.fylkeNr.Some?)
    ensures |HeadOf(e, s.fylkeNr, kommuneNames, kommuneFylke)| <= 1 &&
            |FylkeOf(e, kommuneNames, kommuneFylke)| <= 1
    ensures !e.isDir ==> (HeadOf(e, s.fylkeNr, kommuneNames, kommuneFylke) == [] &&
      WarningOf(e, kommuneNames, kommuneFylke) == [] && FylkeOf(e, kommuneNames, kommuneFylke) == [])
    ensures Step(s, e, kommuneNames, kommuneFylke).Next? ==>
      var s' := Step(s, e, kommuneNames, kommuneFylke).state;
      var fy := FylkeOf(e, kommuneNames, kommuneFylke);
      var head := HeadOf(e, s.fylkeNr, kommuneNames, kommuneFylke);
      (s'.fylker == if fy == [] then s.fylker else AddFylke(s.fylker, fy[0])) &&
      (s'.fylkeNr == if fy == [] then s.fylkeNr else Some(fy[0].1)) &&
      s'.warnings == s.warnings + WarningOf(e, kommuneNames, kommuneFylke) &&
      |s'.table| == |s.table| + |head| && s'.table[..|s.table|] == s.table &&
      (e.isDir ==> |head| + |WarningOf(e, kommuneNames, kommuneFylke)| == 1) &&
      (head != [] ==> RowMatches(s'.table[|s.table|], head[0]))
  {
    if e.isDir {
      var r := Resolve(e.name, kommuneNames, kommuneFylke);
      match r
      case Failed(_) =>
      case Skipped(_) =>
      case Resolved(_, None) =>
        assert e.name == OutsideCode;
      case Resolved(_, Some(t)) =>
        assert e.name != OutsideCode;
    }
  }

  // ------------------------------------------------------ the whole listing

  /** The fylke pairs met along the listing, repeats included. */
  function FylkePairs(entries: seq<DirEntry>, kommuneNames: map<int, string>,
                      kommuneFylke: map<int, (string, int)>): seq<(string, int)>
    decreases |entries|
  {
    if entries == [] then []
    else FylkePairs(entries[..|entries| - 1], kommuneNames, kommuneFylke) +
         FylkeOf(entries[|entries| - 1], kommuneNames, kommuneFylke)
  }

  /** The identifying cells of the rows the listing calls for, in listing order. */
  function RowHeads(entries: seq<DirEntry>, kommuneNames: map<int, string>,
                    kommuneFylke: map<int, (string, int)>): seq<RowHead>
    decreases |entries|
  {
    if entries == [] then []
    else
      var prefix := entries[..|entries| - 1];
      RowHeads(prefix, kommuneNames, kommuneFylke) +
      HeadOf(entries[|entries| - 1], LastFylkeNr(prefix, kommuneNames, kommuneFylke),
             kommuneNames, kommuneFylke)
  }

  /** The fylke number of the last directory along the listing that yielded a fylke pair. */
  function LastFylkeNr(entries: seq<DirEntry>, kommuneNames: map<int, string>,
                       kommuneFylke: map<int, (string, int)>): Option<int>
    decreases |entries|
  {
    if entries == [] then None
    else
      var fy := FylkeOf(entries[|entries| - 1], kommuneNames, kommuneFylke);
      if fy != [] then Some(fy[0].1) else LastFylkeNr(entries[..|entries| - 1], kommuneNames, kommuneFylke)
  }

  /** The warnings of the skipped directories, in listing order. */
  function SkipWarnings(entries: seq<DirEntry>, kommuneNames: map<int, string>,
                        kommuneFylke: map<int, (string, int)>): seq<Warning>
    decreases |entries|
  {
    if entries == [] then []
    else SkipWarnings(entries[..|entries| - 1], kommuneNames, kommuneFylke) +
         WarningOf(entries[|entries| - 1], kommuneNames, kommuneFylke)
  }

  /** Number of directories in the listing. */
  function DirCount(entries: seq<DirEntry>): nat
    decreases |entries|
  {
    if entries == [] then 0
    else DirCount(entries[..|entries| - 1]) + if entries[|entries| - 1].isDir then 1 else 0
  }

  predicate Distinct<T(==)>(xs: seq<T>) {
    forall a, b :: 0 <= a < b < |xs| ==> xs[a] != xs[b]
  }

  /** The loop over a non-empty listing is the loop over all but the last, then one step. */
  lemma RunLast(entries: seq<DirEntry>, kommuneNames: map<int, string>,
                kommuneFylke: map<int, (string, int)>)
    requires entries != []
    ensures var p := Run(entries[..|entries| - 1], kommuneNames, kommuneFylke);
      (p.Stop? ==> Run(entries, kommuneNames, kommuneFylke) == p) &&
      (p.Next? ==> Run(entries, kommuneNames, kommuneFylke) ==
                   Step(p.state, entries[|entries| - 1], kommuneNames, kommuneFylke))
  {
  }

  /**
   * `fylker` holds each fylke pair met along the listing once, as the bare
   * name and number from the table, and nothing else.
   */
  lemma {:induction false} FylkerAreDistinctPairs(entries: seq<DirEntry>, kommuneNames: map<int, string>,
                                                  kommuneFylke: map<int, (string, int)>)
    requires Run(entries, kommuneNames, kommuneFylke).Next?
    ensures var fylker := Run(entries, kommuneNames, kommuneFylke).state.fylker;
      Distinct(fylker) &&
      forall t :: t in fylker <==> t in FylkePairs(entries, kommuneNames, kommuneFylke)
    decreases |entries|
  {
    if entries != [] {
      var prefix := entries[..|entries| - 1];
      RunLast(entries, kommuneNames, kommuneFylke);
      var s := Run(prefix, kommuneNames, kommuneFylke).state;
      StepSummary(s, entries[|entries| - 1], kommuneNames, kommuneFylke);
      FylkerAreDistinctPairs(prefix, kommuneNames, kommuneFylke);
    }
  }

  /** Position of the first occurrence of x in xs. */
  function FirstIndex<T(==)>(xs: seq<T>, x: T): (k: nat)
    requires x in xs
    ensures k < |xs| && xs[k] == x && x !in xs[..k]
  {
    if xs[0] == x then 0
    else
      var k := FirstIndex(xs[1..], x);
      assert xs[..k + 1] == [xs[0]] + xs[1..][..k];
      k + 1
  }

  /** Appending to a list does not move the first occurrence of what it already holds. */
  lemma FirstIndexAppend<T>(xs: seq<T>, ys: seq<T>, x: T)
    requires x in xs
    ensures FirstIndex(xs + ys, x) == FirstIndex(xs, x)
  {
    var k := FirstIndex(xs, x);
    var k' := FirstIndex(xs + ys, x);
    assert (xs + ys)[k] == x;
    assert (xs + ys)[..k'] == xs[..k'] || k' > |xs|;
  }

  /** The pairs of fylker appear in the order of their first occurrence in pairs. */
  predicate FirstEncounterOrder(fylker: seq<(string, int)>, pairs: seq<(string, int)>) {
    forall a, b :: 0 <= a < b < |fylker| ==>
      fylker[a] in pairs && fylker[b] in pairs &&
      FirstIndex(pairs, fylker[a]) < FirstIndex(pairs, fylker[b])
  }

  /** Adding the pairs of one more directory keeps the first-encounter order. */
  lemma FirstEncounterOrderStep(fylker: seq<(string, int)>, pairs: seq<(string, int)>,
                                fy: seq<(string, int)>)
    requires |fy| <= 1 && FirstEncounterOrder(fylker, pairs)
    requires forall t :: t in fylker <==> t in pairs
    ensures FirstEncounterOrder(if fy == [] then fylker else AddFylke(fylker, fy[0]), pairs + fy)
  {
    forall x | x in pairs ensures FirstIndex(pairs + fy, x) == FirstIndex(pairs, x) {
      FirstIndexAppend(pairs, fy, x);
    }
    if fy != [] && fy[0] !in fylker {
      assert (pairs + fy)[|pairs|] == fy[0];
      assert FirstIndex(pairs + fy, fy[0]) == |pairs|;
      var nw := fylker + [fy[0]];
      forall a, b | 0 <= a < b < |nw|
        ensures nw[a] in pairs + fy && nw[b] in pairs + fy &&
                FirstIndex(pairs + fy, nw[a]) < FirstIndex(pairs + fy, nw[b])
      {
        assert nw[a] == fylker[a] && nw[a] in pairs;
        if b < |fylker| {
          assert nw[b] == fylker[b];
        }
      }
    }
  }

  /** `fylker` keeps the order in which the pairs are first met. */
  lemma {:induction false} FylkerInFirstEncounterOrder(entries: seq<DirEntry>,
      kommuneNames: map<int, string>, kommuneFylke: map<int, (string, int)>)
    requires Run(entries, kommuneNames, kommuneFylke).Next?
    ensures FirstEncounterOrder(Run(entries, kommuneNames, kommuneFylke).state.fylker,
                                FylkePairs(entries, kommuneNames, kommuneFylke))
    decreases |entries|
  {
    if entries != [] {
      var e := entries[|entries| - 1];
      var prefix := entries[..|entries| - 1];
      RunLast(entries, kommuneNames, kommuneFylke);
      var s := Run(prefix, kommuneNames, kommuneFylke).state;
      StepSummary(s, e, kommuneNames, kommuneFylke);
      FylkerAreDistinctPairs(prefix, kommuneNames, kommuneFylke);
      FylkerInFirstEncounterOrder(prefix, kommuneNames, kommuneFylke);
      FirstEncounterOrderStep(s.fylker, FylkePairs(prefix, kommuneNames, kommuneFylke),
                              FylkeOf(e, kommuneNames, kommuneFylke));
    }
  }

  /** Some directory before position i yields a fylke pair, so `fylke_nr` is bound there. */
  predicate FylkeNrAssignedBefore(entries: seq<DirEntry>, i: nat, kommuneNames: map<int, string>,
                                  kommuneFylke: map<int, (string, int)>)
    requires i <= |entries|
  {
    exists j :: 0 <= j < i && FylkeOf(entries[j], kommuneNames, kommuneFylke) != []
  }

  /** Whether `fylke_nr` is bound before position i depends only on the entries before i. */
  lemma AssignedBeforeOfPrefix(entries: seq<DirEntry>, n: nat, i: nat, kommuneNames: map<int, string>,
                               kommuneFylke: map<int, (string, int)>)
    requires i <= n <= |entries|
    ensures FylkeNrAssignedBefore(entries[..n], i, kommuneNames, kommuneFylke) ==
            FylkeNrAssignedBefore(entries, i, kommuneNames, kommuneFylke)
  {
    if FylkeNrAssignedBefore(entries, i, kommuneNames, kommuneFylke) {
      var j :| 0 <= j < i && FylkeOf(entries[j], kommuneNames, kommuneFylke) != [];
      assert entries[..n][j] == entries[j];
    }
  }

  /**
   * After the loop, `fylke_nr` holds the fylke number of the last directory
   * whose fylke lookup succeeded, and it is bound exactly when there is one.
   */
  lemma {:induction false} FylkeNrBound(entries: seq<DirEntry>, kommuneNames: map<int, string>,
                                        kommuneFylke: map<int, (string, int)>)
    requires Run(entries, kommuneNames, kommuneFylke).Next?
    ensures Run(entries, kommuneNames, kommuneFylke).state.fylkeNr ==
            LastFylkeNr(entries, kommuneNames, kommuneFylke)
    ensures Run(entries, kommuneNames, kommuneFylke).state.fylkeNr.Some? <==>
            FylkeNrAssignedBefore(entries, |entries|, kommuneNames, kommuneFylke)
    decreases |entries|
  {
    if entries != [] {
      var n := |entries| - 1;
      var prefix := entries[..n];
      RunLast(entries, kommuneNames, kommuneFylke);
      StepSummary(Run(prefix, kommuneNames, kommuneFylke).state, entries[n], kommuneNames, kommuneFylke);
      FylkeNrBound(prefix, kommuneNames, kommuneFylke);
      AssignedBeforeOfPrefix(entries, n, n, kommuneNames, kommuneFylke);
    }
  }

  /** The directory at position i ends the loop with an error. */
  predicate Fatal(entries: seq<DirEntry>, i: nat, kommuneNames: map<int, string>,
                  kommuneFylke: map<int, (string, int)>)
    requires i < |entries|
  {
    Blocks(entries[i], FylkeNrAssignedBefore(entries, i, kommuneNames, kommuneFylke))
  }

  /** Whether directory i is fatal depends only on the entries up to i. */
  lemma FatalOfPrefix(entries: seq<DirEntry>, n: nat, i: nat, kommuneNames: map<int, string>,
                      kommuneFylke: map<int, (string, int)>)
    requires i < n <= |entries|
    ensures Fatal(entries[..n], i, kommuneNames, kommuneFylke) == Fatal(entries, i, kommuneNames, kommuneFylke)
  {
    AssignedBeforeOfPrefix(entries, n, i, kommuneNames, kommuneFylke);
    assert entries[..n][i] == entries[i];
  }

  /** Once the loop has come through all but the last directory, the last one stops it exactly when it is fatal. */
  lemma LastStepStopsIff(entries: seq<DirEntry>, kommuneNames: map<int, string>,
                         kommuneFylke: map<int, (string, int)>)
    requires entries != [] && Run(entries[..|entries| - 1], kommuneNames, kommuneFylke).Next?
    ensures Run(entries, kommuneNames, kommuneFylke).Next? <==>
            !Fatal(entries, |entries| - 1, kommuneNames, kommuneFylke)
  {
    var n := |entries| - 1;
    var prefix := entries[..n];
    RunLast(entries, kommuneNames, kommuneFylke);
    StepSummary(Run(prefix, kommuneNames, kommuneFylke).state, entries[n], kommuneNames, kommuneFylke);
    FylkeNrBound(prefix, kommuneNames, kommuneFylke);
    AssignedBeforeOfPrefix(entries, n, n, kommuneNames, kommuneFylke);
  }

  /** The function returns its table exactly when no directory of the listing is fatal. */
  lemma {:induction false} RunCompletesIff(entries: seq<DirEntry>, kommuneNames: map<int, string>,
                                           kommuneFylke: map<int, (string, int)>)
    ensures Run(entries, kommuneNames, kommuneFylke).Next? <==>
            forall i :: 0 <= i < |entries| ==> !Fatal(entries, i, kommuneNames, kommuneFylke)
    decreases |entries|
  {
    if entries != [] {
      var n := |entries| - 1;
      var prefix := entries[..n];
      RunCompletesIff(prefix, kommuneNames, kommuneFylke);
      forall i | 0 <= i < n
        ensures Fatal(prefix, i, kommuneNames, kommuneFylke) == Fatal(entries, i, kommuneNames, kommuneFylke)
      {
        FatalOfPrefix(entries, n, i, kommuneNames, kommuneFylke);
      }
      if Run(prefix, kommuneNames, kommuneFylke).Next? {
        LastStepStopsIff(entries, kommuneNames, kommuneFylke);
      } else {
        RunLast(entries, kommuneNames, kommuneFylke);
        var i :| 0 <= i < n && Fatal(prefix, i, kommuneNames, kommuneFylke);
        assert Fatal(entries, i, kommuneNames, kommuneFylke);
      }
    }
  }

  /**
   * The seven cells of row are those head calls for: the fylke number, the
   * fylke cell, the log column headed "<code> <kommune name>" and followed by
   * the log files' links, and the links of the other four columns.
   */
  predicate RowMatches(row: Row, h: RowHead) {
    row.fylkeNr == h.fylkeNr && row.fylkeName == h.fylkeCell &&
    row.log == [h.code + " " + h.kommuneName] + BucketLinks(h.files, h.code, Log) &&
    row.dataset == BucketLinks(h.files, h.code, Dataset) &&
    row.excerpts == BucketLinks(h.files, h.code, Excerpts) &&
    row.excluded == BucketLinks(h.files, h.code, Excluded) &&
    row.raw == BucketLinks(h.files, h.code, Raw)
  }

  /** Row k is the row heads[k] calls for. */
  predicate RowsMatchHeads(table: seq<Row>, heads: seq<RowHead>) {
    |table| == |heads| && forall k :: 0 <= k < |table| ==> RowMatches(table[k], heads[k])
  }

  /** Appending at most one row that matches the one new head keeps rows and heads matched. */
  lemma RowsMatchHeadsStep(t0: seq<Row>, t1: seq<Row>, h0: seq<RowHead>, h: seq<RowHead>)
    requires RowsMatchHeads(t0, h0) && |h| <= 1
    requires |t1| == |t0| + |h| && t1[..|t0|] == t0
    requires h != [] ==> RowMatches(t1[|t0|], h[0])
    ensures RowsMatchHeads(t1, h0 + h)
  {
    forall k | 0 <= k < |t1| ensures RowMatches(t1[k], (h0 + h)[k]) {
      if k < |t0| {
        assert t1[k] == t1[..|t0|][k] && (h0 + h)[k] == h0[k];
      } else {
        assert (h0 + h)[k] == h[0];
      }
    }
  }

  /**
   * One row per resolved directory, in listing order, made of that
   * directory's cells: its fylke number (for `ZZ`, the one bound before),
   * its fylke cell "<fylke> fylke" (empty for `ZZ`), its log column headed
   * by "<code> <kommune name>" and its walk's links in each column; one
   * warning per skipped directory; and every directory gives either a row
   * or a warning.
   */
  lemma {:induction false} RowsFollowListing(entries: seq<DirEntry>, kommuneNames: map<int, string>,
                                             kommuneFylke: map<int, (string, int)>)
    requires Run(entries, kommuneNames, kommuneFylke).Next?
    ensures var s := Run(entries, kommuneNames, kommuneFylke).state;
      RowsMatchHeads(s.table, RowHeads(entries, kommuneNames, kommuneFylke)) &&
      s.warnings == SkipWarnings(entries, kommuneNames, kommuneFylke) &&
      |s.table| + |s.warnings| == DirCount(entries)
    decreases |entries|
  {
    if entries != [] {
      var n := |entries| - 1;
      var prefix := entries[..n];
      RunLast(entries, kommuneNames, kommuneFylke);
      var s0 := Run(prefix, kommuneNames, kommuneFylke).state;
      StepSummary(s0, entries[n], kommuneNames, kommuneFylke);
      FylkeNrBound(prefix, kommuneNames, kommuneFylke);
      RowsFollowListing(prefix, kommuneNames, kommuneFylke);
      RowsMatchHeadsStep(s0.table, Run(entries, kommuneNames, kommuneFylke).state.table,
                         RowHeads(prefix, kommuneNames, kommuneFylke),
                         HeadOf(entries[n], s0.fylkeNr, kommuneNames, kommuneFylke));
    }
  }

  // ------------------------------------------------------- one folder's row

  /** How many files of the walk land in some bucket. */
  function SortedCount(files: seq<(string, string)>, code: string): (n: nat)
    ensures n <= |files|
    decreases |files|
  {
    if files == [] then 0
    else
      var (root, f) := files[|files| - 1];
      SortedCount(files[..|files| - 1], code) + (if FileBucket(root, f, code).Some? then 1 else 0)
  }

  /**
   * Each sorted file is listed once, in exactly one bucket: the five lists
   * together hold as many links as there are sorted files.
   */
  lemma {:induction false} BucketsPartition(files: seq<(string, string)>, code: string)
    ensures |BucketLinks(files, code, Log)| + |BucketLinks(files, code, Dataset)| +
            |BucketLinks(files, code, Excerpts)| + |BucketLinks(files, code, Excluded)| +
            |BucketLinks(files, code, Raw)| == SortedCount(files, code)
    decreases |files|
  {
    if files != [] {
      BucketsPartition(files[..|files| - 1], code);
    }
  }

  /** The file at position k of the walk lands in bucket b and has link l. */
  predicate ListedAt(files: seq<(string, string)>, code: string, b: Bucket, l: string, k: int) {
    0 <= k < |files| && FileBucket(files[k].0, files[k].1, code) == Some(b) &&
    l == FileLink(files[k].0, files[k].1)
  }

  /** Bucket b's list over the walk is its list over all but the last file, then that file's link if it lands in b. */
  lemma BucketLinksLast(files: seq<(string, string)>, code: string, b: Bucket)
    requires files != []
    ensures var n := |files| - 1;
      BucketLinks(files, code, b) == BucketLinks(files[..n], code, b) +
        (if FileBucket(files[n].0, files[n].1, code) == Some(b) then [FileLink(files[n].0, files[n].1)] else [])
  {
  }

  /** Every link in bucket b's list is the link of a file of the walk that lands in b. */
  lemma {:induction false} BucketHoldsOnlyItsFiles(files: seq<(string, string)>, code: string, b: Bucket, l: string)
    requires l in BucketLinks(files, code, b)
    ensures exists k :: ListedAt(files, code, b, l, k)
    decreases |files|
  {
    var n := |files| - 1;
    var prefix := files[..n];
    BucketLinksLast(files, code, b);
    if l in BucketLinks(prefix, code, b) {
      BucketHoldsOnlyItsFiles(prefix, code, b, l);
      var k :| ListedAt(prefix, code, b, l, k);
      assert files[k] == prefix[k];
      assert ListedAt(files, code, b, l, k);
    } else {
      assert ListedAt(files, code, b, l, n);
    }
  }

  /** The link of every file of the walk that lands in b is in b's list. */
  lemma {:induction false} LinkInItsBucket(files: seq<(string, string)>, code: string, b: Bucket,
                                           l: string, k: int)
    requires ListedAt(files, code, b, l, k)
    ensures l in BucketLinks(files, code, b)
    decreases |files|
  {
    var n := |files| - 1;
    var prefix := files[..n];
    BucketLinksLast(files, code, b);
    var tail := if FileBucket(files[n].0, files[n].1, code) == Some(b) then [FileLink(files[n].0, files[n].1)] else [];
    assert BucketLinks(files, code, b) == BucketLinks(prefix, code, b) + tail;
    if k < n {
      assert prefix[k] == files[k];
      assert ListedAt(prefix, code, b, l, k);
      LinkInItsBucket(prefix, code, b, l, k);
    } else {
      assert k == n;
      assert FileBucket(files[n].0, files[n].1, code) == Some(b);
      assert l == FileLink(files[n].0, files[n].1);
      assert l in tail;
    }
  }

  /**
   * A link is in bucket b's list exactly when it is the link of a file of the
   * walk that lands in b.
   */
  lemma BucketMembers(files: seq<(string, string)>, code: string, b: Bucket, l: string)
    ensures l in BucketLinks(files, code, b) <==> exists k :: ListedAt(files, code, b, l, k)
  {
    if l in BucketLinks(files, code, b) {
      BucketHoldsOnlyItsFiles(files, code, b, l);
    }
    if exists k :: ListedAt(files, code, b, l, k) {
      var k :| ListedAt(files, code, b, l, k);
      LinkInItsBucket(files, code, b, l, k);
    }
  }

  // ------------------------------------------------------ single directories

  /**
   * A `ZZ` directory once `fylke_nr` is bound gets a row with an empty fylke
   * cell, the `fylke_nr` left from before and the log header
   * `ZZ Outside mainland`; `fylker` and the warnings are unchanged.
   */
  lemma OutsideMainlandRow(s: State, e: DirEntry, kommuneNames: map<int, string>,
                           kommuneFylke: map<int, (string, int)>)
    requires e.isDir && e.name == OutsideCode && s.fylkeNr.Some?
    ensures var p := Step(s, e, kommuneNames, kommuneFylke);
      p.Next? && p.state.fylker == s.fylker && p.state.warnings == s.warnings &&
      p.state.fylkeNr == s.fylkeNr && |p.state.table| == |s.table| + 1 &&
      p.state.table[..|s.table|] == s.table &&
      var row := p.state.table[|s.table|];
      row.fylkeNr == s.fylkeNr.value && row.fylkeName == "" && row.log[0] == "ZZ Outside mainland"
  {
    assert Resolve(e.name, kommuneNames, kommuneFylke) == Resolved("Outside mainland", None);
    var row := BuildRow(e.name, "Outside mainland", s.fylkeNr.value, "", e.files);
    assert Step(s, e, kommuneNames, kommuneFylke) == Next(s.(table := s.table + [row]));
    assert (s.table + [row])[..|s.table|] == s.table;
    assert (s.table + [row])[|s.table|] == row;
    assert row.log[0] == e.name + " " + "Outside mainland";
    OutsideHeader();
  }

  lemma OutsideHeader()
    ensures OutsideCode + " " + "Outside mainland" == "ZZ Outside mainland"
  {
  }

  /** A `ZZ` directory before any numbered one is fatal: `fylke_nr` is unbound. */
  lemma OutsideMainlandFirstFails(s: State, files: seq<(string, string)>, kommuneNames: map<int, string>,
                                  kommuneFylke: map<int, (string, int)>)
    requires s.fylkeNr.None?
    ensures Step(s, DirEntry(OutsideCode, true, files), kommuneNames, kommuneFylke) ==
            Stop(UnboundFylkeNr(OutsideCode))
  {
    OutsideCodeNotNumeric();
    assert Resolve(OutsideCode, kommuneNames, kommuneFylke) == Resolved("Outside mainland", None);
  }

  /** A number missing from the name table gives no row and one warning naming the directory. */
  lemma UnknownNumberSkipped(s: State, code: string, n: int, files: seq<(string, string)>,
                             kommuneNames: map<int, string>, kommuneFylke: map<int, (string, int)>)
    requires ParseInt(code) == Some(n) && n !in kommuneNames
    ensures Step(s, DirEntry(code, true, files), kommuneNames, kommuneFylke) ==
            Next(s.(warnings := s.warnings + [NoKommuneName(code)]))
  {
    ResolveUnknownNumber(code, n, kommuneNames, kommuneFylke);
  }
}
