/**
 * Which column of the region's row a data file is listed in
 * (the extension filter and the if/elif chain of `create_main_table`).
 */
module Classify {
  import opened PyStr

  /** The five lists a file can be appended to. */
  datatype Bucket = Excerpts | Dataset | Excluded | Raw | Log

  /** `f.endswith(('.osm', '.xml', '.log', '.gml'))`: no other file is looked at. */
  predicate Considered(f: string) {
    EndsWith(f, ".osm") || EndsWith(f, ".xml") || EndsWith(f, ".log") || EndsWith(f, ".gml")
  }

  /** The buckets in the order their rules are tried. */
  const RuleOrder: seq<Bucket> := [Excerpts, Dataset, Excluded, Raw, Log]

  /** The test guarding bucket b, for a file f found in directory root of region code. */
  predicate RuleHolds(b: Bucket, root: string, f: string, code: string) {
    match b
    case Excerpts => EndsWith(root, "clean")
    case Dataset => EndsWith(f, code + ".osm")
    case Excluded => Contains(f, "NoName") || Contains(f, "NoTags")
    case Raw => EndsWith(f, ".xml") || EndsWith(f, ".gml")
    case Log => EndsWith(f, ".log")
  }

  /** i is a position of rules, and no rule before it holds. */
  predicate NoneHoldsBefore(rules: seq<Bucket>, i: int, root: string, f: string, code: string) {
    0 <= i < |rules| && forall k :: 0 <= k < i ==> !RuleHolds(rules[k], root, f, code)
  }

  /** The first bucket of rules whose test holds. */
  function FirstMatch(rules: seq<Bucket>, root: string, f: string, code: string): (r: Option<Bucket>)
    ensures r.Some? ==> r.value in rules && RuleHolds(r.value, root, f, code)
    ensures r.Some? ==> exists i :: NoneHoldsBefore(rules, i, root, f, code) && rules[i] == r.value
    ensures r.None? ==> forall k :: 0 <= k < |rules| ==> !RuleHolds(rules[k], root, f, code)
    decreases |rules|
  {
    if rules == [] then None
    else if RuleHolds(rules[0], root, f, code) then Some(rules[0])
    else
      var r := FirstMatch(rules[1..], root, f, code);
      assert r.Some? ==> exists i :: NoneHoldsBefore(rules, i, root, f, code) && rules[i] == r.value by {
        if r.Some? {
          var j :| NoneHoldsBefore(rules[1..], j, root, f, code) && rules[1..][j] == r.value;
          forall k | 0 <= k < j + 1 ensures !RuleHolds(rules[k], root, f, code) {
            if k > 0 { assert rules[k] == rules[1..][k - 1]; }
          }
          assert NoneHoldsBefore(rules, j + 1, root, f, code) && rules[j + 1] == r.value;
        }
      }
      r
  }

  /** The if/elif chain itself: the first test that holds decides, and a file matching none is ignored. */
  function Classify(root: string, f: string, code: string): Option<Bucket> {
    if EndsWith(root, "clean") then Some(Excerpts)
    else if EndsWith(f, code + ".osm") then Some(Dataset)
    else if Contains(f, "NoName") || Contains(f, "NoTags") then Some(Excluded)
    else if EndsWith(f, ".xml") || EndsWith(f, ".gml") then Some(Raw)
    else if EndsWith(f, ".log") then Some(Log)
    else None
  }

  /** Where the file ends up: nowhere unless its extension is considered, else the chain decides. */
  function FileBucket(root: string, f: string, code: string): Option<Bucket> {
    if Considered(f) then Classify(root, f, code) else None
  }

  /** The chain tries exactly the rules of RuleOrder, in that order. */
  lemma ClassifyIsFirstMatch(root: string, f: string, code: string)
    ensures Classify(root, f, code) == FirstMatch(RuleOrder, root, f, code)
  {
    assert RuleOrder[1..] == [Dataset, Excluded, Raw, Log];
    assert RuleOrder[1..][1..] == [Excluded, Raw, Log];
    assert RuleOrder[1..][1..][1..] == [Raw, Log];
    assert RuleOrder[1..][1..][1..][1..] == [Log];
  }

  /** Position of a bucket's rule in RuleOrder. */
  function Rank(b: Bucket): (n: nat)
    ensures n < |RuleOrder| && RuleOrder[n] == b
  {
    match b
    case Excerpts => 0
    case Dataset => 1
    case Excluded => 2
    case Raw => 3
    case Log => 4
  }

  /**
   * First match wins: a file lands in bucket b exactly when its extension is
   * considered, b's rule holds, and no rule tried before b's holds.
   */
  lemma FileBucketIff(root: string, f: string, code: string, b: Bucket)
    ensures FileBucket(root, f, code) == Some(b) <==>
      Considered(f) && RuleHolds(b, root, f, code) &&
      forall k :: 0 <= k < Rank(b) ==> !RuleHolds(RuleOrder[k], root, f, code)
  {
    NoneHoldsBelow(root, f, code, Rank(b));
  }

  /** No rule among the first n of RuleOrder holds, spelled out rule by rule. */
  lemma NoneHoldsBelow(root: string, f: string, code: string, n: nat)
    requires n < |RuleOrder|
    ensures (forall k :: 0 <= k < n ==> !RuleHolds(RuleOrder[k], root, f, code)) <==>
      (n > 0 ==> !EndsWith(root, "clean")) &&
      (n > 1 ==> !EndsWith(f, code + ".osm")) &&
      (n > 2 ==> !(Contains(f, "NoName") || Contains(f, "NoTags"))) &&
      (n > 3 ==> !(EndsWith(f, ".xml") || EndsWith(f, ".gml")))
  {
    assert RuleOrder[0] == Excerpts && RuleOrder[1] == Dataset && RuleOrder[2] == Excluded;
    assert RuleOrder[3] == Raw && RuleOrder[4] == Log;
    if forall k :: 0 <= k < n ==> !RuleHolds(RuleOrder[k], root, f, code) {
      if n > 0 { assert !RuleHolds(RuleOrder[0], root, f, code); }
      if n > 1 { assert !RuleHolds(RuleOrder[1], root, f, code); }
      if n > 2 { assert !RuleHolds(RuleOrder[2], root, f, code); }
      if n > 3 { assert !RuleHolds(RuleOrder[3], root, f, code); }
    }
    if (n > 0 ==> !EndsWith(root, "clean")) &&
       (n > 1 ==> !EndsWith(f, code + ".osm")) &&
       (n > 2 ==> !(Contains(f, "NoName") || Contains(f, "NoTags"))) &&
       (n > 3 ==> !(EndsWith(f, ".xml") || EndsWith(f, ".gml"))) {
      forall k | 0 <= k < n ensures !RuleHolds(RuleOrder[k], root, f, code) {
        assert k == 0 || k == 1 || k == 2 || k == 3;
      }
    }
  }

  /** An `.osm` file is never raw data nor a log, and one that no rule claims is dropped. */
  lemma OsmBuckets(root: string, f: string, code: string)
    requires EndsWith(f, ".osm")
    ensures FileBucket(root, f, code) in {None, Some(Excerpts), Some(Dataset), Some(Excluded)}
    ensures FileBucket(root, f, code) == None <==>
      !EndsWith(root, "clean") && !EndsWith(f, code + ".osm") &&
      !Contains(f, "NoName") && !Contains(f, "NoTags")
  {
    assert f[|f| - 4..] == ".osm";
  }

  /**
   * A raw-data file outside a `clean` directory that is neither the region's
   * dataset nor marked NoName/NoTags lands in the raw-data bucket, and a
   * marked one is excluded even though it has a raw-data extension.
   */
  lemma RawDataBucket(root: string, f: string, code: string)
    requires EndsWith(f, ".xml") || EndsWith(f, ".gml")
    requires !EndsWith(root, "clean")
    ensures FileBucket(root, f, code) ==
      if Contains(f, "NoName") || Contains(f, "NoTags") then Some(Excluded) else Some(Raw)
  {
    assert f[|f| - 4..] != ".osm";
  }
}
