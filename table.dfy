/**
 * `create_main_table`: one row per resolved region directory, each file of
 * the directory's tree linked in the column its name selects, and the list
 * of fylker met on the way. The directory listing and the tree walk are an
 * input sequence; the lookup tables are maps.
 */
module MainTable {
  import opened PyStr
  import opened Label
  import opened Classify
  import opened Region

  /**
   * One name listed in the data directory: whether it is a directory, and
   * every (root, file name) pair the walk of its tree yields, in walk order.
   */
  datatype DirEntry = DirEntry(name: string, isDir: bool, files: seq<(string, string)>)

  /** The seven cells of a row, in the order they are appended. */
  datatype Row = Row(fylkeNr: int, fylkeName: string, log: seq<string>, dataset: seq<string>,
                     excerpts: seq<string>, excluded: seq<string>, raw: seq<string>)

  /**
   * The loop's variables after some directories: the rows, the fylker met,
   * the warnings logged, and the Python variable `fylke_nr` (None while unbound).
   */
  datatype State = State(table: seq<Row>, fylker: seq<(string, int)>, warnings: seq<Warning>,
                         fylkeNr: Option<int>)

  datatype Progress = Next(state: State) | Stop(failure: Failure)

  /** What the function hands back: its rows and fylker (and the warnings it logged), or the error. */
  datatype Outcome = Done(table: seq<Row>, fylker: seq<(string, int)>, warnings: seq<Warning>)
                   | Error(failure: Failure)

  /** The link written for file f found in directory root. */
  function FileLink(root: string, f: string): string {
    var filename := Join(root, f);
    Link(Href(filename), filename, CreateText(filename, f))
  }

  /** The links of the files that land in bucket b, in walk order. */
  function BucketLinks(files: seq<(string, string)>, code: string, b: Bucket): seq<string>
    decreases |files|
  {
    if files == [] then []
    else
      var (root, f) := files[|files| - 1];
      BucketLinks(files[..|files| - 1], code, b) +
        (if FileBucket(root, f, code) == Some(b) then [FileLink(root, f)] else [])
  }

  /** The row of a region: its log column starts with "<code> <kommune name>". */
  function BuildRow(code: string, kommuneName: string, fylkeNr: int, fylkeName: string,
                    files: seq<(string, string)>): Row
  {
    Row(fylkeNr, fylkeName,
        [code + " " + kommuneName] + BucketLinks(files, code, Log),
        BucketLinks(files, code, Dataset), BucketLinks(files, code, Excerpts),
        BucketLinks(files, code, Excluded), BucketLinks(files, code, Raw))
  }

  /** `if t not in fylker: fylker.append(t)` */
  function AddFylke(fylker: seq<(string, int)>, t: (string, int)): seq<(string, int)> {
    if t in fylker then fylker else fylker + [t]
  }

  /** One iteration of the outer loop. */
  function Step(s: State, e: DirEntry, kommuneNames: map<int, string>,
                kommuneFylke: map<int, (string, int)>): Progress
  {
    if !e.isDir then Next(s)
    else match Resolve(e.name, kommuneNames, kommuneFylke)
      case Failed(failure) => Stop(failure)
      case Skipped(w) => Next(s.(warnings := s.warnings + [w]))
      case Resolved(kommuneName, None) =>
        if s.fylkeNr.None? then Stop(UnboundFylkeNr(e.name))
        else Next(s.(table := s.table + [BuildRow(e.name, kommuneName, s.fylkeNr.value, "", e.files)]))
      case Resolved(kommuneName, Some(t)) =>
        Next(State(s.table + [BuildRow(e.name, kommuneName, t.1, t.0 + " fylke", e.files)],
                   AddFylke(s.fylker, t), s.warnings, Some(t.1)))
  }

  /** The outer loop over the listing, from the empty state; the first error ends it. */
  function Run(entries: seq<DirEntry>, kommuneNames: map<int, string>,
               kommuneFylke: map<int, (string, int)>): Progress
    decreases |entries|
  {
    if entries == [] then Next(State([], [], [], None))
    else match Run(entries[..|entries| - 1], kommuneNames, kommuneFylke)
      case Stop(failure) => Stop(failure)
      case Next(s) => Step(s, entries[|entries| - 1], kommuneNames, kommuneFylke)
  }

  function Finish(p: Progress): Outcome {
    match p
    case Stop(failure) => Error(failure)
    case Next(s) => Done(s.table, s.fylker, s.warnings)
  }

  /** The loop over one more directory is one more step. */
  lemma RunExtend(entries: seq<DirEntry>, i: nat, kommuneNames: map<int, string>,
                  kommuneFylke: map<int, (string, int)>)
    requires i < |entries|
    ensures Run(entries[..i], kommuneNames, kommuneFylke).Stop? ==>
      Run(entries[..i + 1], kommuneNames, kommuneFylke) == Run(entries[..i], kommuneNames, kommuneFylke)
    ensures Run(entries[..i], kommuneNames, kommuneFylke).Next? ==>
      Run(entries[..i + 1], kommuneNames, kommuneFylke) ==
      Step(Run(entries[..i], kommuneNames, kommuneFylke).state, entries[i], kommuneNames, kommuneFylke)
  {
    assert entries[..i + 1][..i] == entries[..i];
  }

  /** Once the loop has stopped with an error, the later directories change nothing. */
  lemma {:induction false} StopIsFinal(entries: seq<DirEntry>, n: nat, kommuneNames: map<int, string>,
                                       kommuneFylke: map<int, (string, int)>)
    requires n <= |entries| && Run(entries[..n], kommuneNames, kommuneFylke).Stop?
    ensures Run(entries, kommuneNames, kommuneFylke) == Run(entries[..n], kommuneNames, kommuneFylke)
    decreases |entries|
  {
    if n < |entries| {
      assert entries[..|entries| - 1][..n] == entries[..n];
      StopIsFinal(entries[..|entries| - 1], n, kommuneNames, kommuneFylke);
    } else {
      assert entries[..n] == entries;
    }
  }

  /** links, followed by the link of file f in root when f lands in bucket b. */
  function Appended(links: seq<string>, root: string, f: string, code: string, b: Bucket): seq<string> {
    links + if FileBucket(root, f, code) == Some(b) then [FileLink(root, f)] else []
  }

  /** The lists over one more file of the walk: that file's link goes to its bucket's list only. */
  lemma WalkStep(files: seq<(string, string)>, j: nat, code: string)
    requires j < |files|
    ensures forall b :: BucketLinks(files[..j + 1], code, b) ==
                        Appended(BucketLinks(files[..j], code, b), files[j].0, files[j].1, code, b)
  {
    assert files[..j + 1][..j] == files[..j];
  }

  /**
   * The body of the walk for one file: a considered file's link is appended
   * to the list of the first test that holds.
   */
  method SortFile(root: string, f: string, code: string, log: seq<string>, dataset: seq<string>,
                  excerpts: seq<string>, excluded: seq<string>, raw: seq<string>)
    returns (log': seq<string>, dataset': seq<string>, excerpts': seq<string>,
             excluded': seq<string>, raw': seq<string>)
    ensures log' == Appended(log, root, f, code, Log)
    ensures dataset' == Appended(dataset, root, f, code, Dataset)
    ensures excerpts' == Appended(excerpts, root, f, code, Excerpts)
    ensures excluded' == Appended(excluded, root, f, code, Excluded)
    ensures raw' == Appended(raw, root, f, code, Raw)
  {
    log', dataset', excerpts', excluded', raw' := log, dataset, excerpts, excluded, raw;
    if Considered(f) {
      var filename := Join(root, f);
      var text := CreateText(filename, f);
      var href := Href(filename);
      var url := Link(href, filename, text);
      if EndsWith(root, "clean") {
        excerpts' := excerpts + [url];
      } else if EndsWith(f, code + ".osm") {
        dataset' := dataset + [url];
      } else if Contains(f, "NoName") || Contains(f, "NoTags") {
        excluded' := excluded + [url];
      } else if EndsWith(f, ".xml") || EndsWith(f, ".gml") {
        raw' := raw + [url];
      } else if EndsWith(f, ".log") {
        log' := log + [url];
      }
    }
  }

  /**
   * The walk of one region folder: each considered file's link is appended
   * to the list its bucket names, in walk order.
   */
  method WalkFolder(code: string, files: seq<(string, string)>)
    returns (log: seq<string>, dataset: seq<string>, excerpts: seq<string>,
             excluded: seq<string>, raw: seq<string>)
    ensures log == BucketLinks(files, code, Log)
    ensures dataset == BucketLinks(files, code, Dataset)
    ensures excerpts == BucketLinks(files, code, Excerpts)
    ensures excluded == BucketLinks(files, code, Excluded)
    ensures raw == BucketLinks(files, code, Raw)
  {
    dataset, excluded, excerpts, raw, log := [], [], [], [], [];
    var j := 0;
    while j < |files|
      invariant 0 <= j <= |files|
      invariant dataset == BucketLinks(files[..j], code, Dataset)
      invariant excluded == BucketLinks(files[..j], code, Excluded)
      invariant excerpts == BucketLinks(files[..j], code, Excerpts)
      invariant raw == BucketLinks(files[..j], code, Raw)
      invariant log == BucketLinks(files[..j], code, Log)
    {
      var (root, f) := files[j];
      WalkStep(files, j, code);
      log, dataset, excerpts, excluded, raw := SortFile(root, f, code, log, dataset, excerpts, excluded, raw);
      j := j + 1;
    }
    assert files[..|files|] == files;
  }

  /**
   * One pass of the outer loop's body, for directory e, from the loop's
   * variables: it reaches the row, a skip (`continue`) or an error.
   */
  method VisitFolder(e: DirEntry, kommuneNames: map<int, string>,
                     kommuneFylke: map<int, (string, int)>,
                     table: seq<Row>, fylker: seq<(string, int)>, warnings: seq<Warning>,
                     fylkeNr: Option<int>) returns (p: Progress)
    ensures p == Step(State(table, fylker, warnings, fylkeNr), e, kommuneNames, kommuneFylke)
  {
    if !e.isDir {
      return Next(State(table, fylker, warnings, fylkeNr));
    }
    ghost var res := Resolve(e.name, kommuneNames, kommuneFylke);
    var k := ParseInt(e.name);
    var kommuneName: string;
    if k.Some? {
      if k.value !in kommuneNames {
        assert res == Skipped(NoKommuneName(e.name));
        return Next(State(table, fylker, warnings + [NoKommuneName(e.name)], fylkeNr));
      }
      kommuneName := kommuneNames[k.value] + " kommune";
    } else if e.name == OutsideCode {
      kommuneName := "Outside mainland";
    } else {
      assert res == Failed(MalformedCode(e.name));
      return Stop(MalformedCode(e.name));
    }
    var fylkeName: string;
    var fylker', fylkeNr' := fylker, fylkeNr;
    if k.Some? {
      if k.value !in kommuneFylke {
        assert res == Skipped(NoFylke(e.name));
        return Next(State(table, fylker, warnings + [NoFylke(e.name)], fylkeNr));
      }
      var t := kommuneFylke[k.value];
      assert res == Resolved(kommuneName, Some(t));
      if t !in fylker' {
        fylker' := fylker' + [t];
      }
      fylkeName := t.0 + " fylke";
      fylkeNr' := Some(t.1);
    } else {
      assert res == Resolved(kommuneName, None);
      fylkeName := "";
    }

    var log, dataset, excerpts, excluded, raw := WalkFolder(e.name, e.files);
    if fylkeNr'.None? {
      return Stop(UnboundFylkeNr(e.name));
    }
    log := [e.name + " " + kommuneName] + log;
    var row := Row(fylkeNr'.value, fylkeName, log, dataset, excerpts, excluded, raw);
    assert row == BuildRow(e.name, kommuneName, fylkeNr'.value, fylkeName, e.files);
    return Next(State(table + [row], fylker', warnings, fylkeNr'));
  }

  /**
   * `create_main_table` over a listing: the rows, the fylker and the warnings
   * are those of Run, or the run stops with Run's error.
   */
  method CreateMainTable(entries: seq<DirEntry>, kommuneNames: map<int, string>,
                         kommuneFylke: map<int, (string, int)>) returns (r: Outcome)
    ensures r == Finish(Run(entries, kommuneNames, kommuneFylke))
  {
    var table: seq<Row> := [];
    var fylker: seq<(string, int)> := [];
    var warnings: seq<Warning> := [];
    var fylkeNr: Option<int> := None;
    var i := 0;
    while i < |entries|
      invariant 0 <= i <= |entries|
      invariant Run(entries[..i], kommuneNames, kommuneFylke) ==
                Next(State(table, fylker, warnings, fylkeNr))
    {
      RunExtend(entries, i, kommuneNames, kommuneFylke);
      var p := VisitFolder(entries[i], kommuneNames, kommuneFylke, table, fylker, warnings, fylkeNr);
      match p
      case Stop(failure) =>
        StopIsFinal(entries, i + 1, kommuneNames, kommuneFylke);
        return Error(failure);
      case Next(s) =>
        table, fylker, warnings, fylkeNr := s.table, s.fylker, s.warnings, s.fylkeNr;
      i := i + 1;
    }
    assert entries[..|entries|] == entries;
    return Done(table, fylker, warnings);
  }
}
