/**
 * Resolving a region directory's name (a kommune number, or `ZZ`) to the
 * kommune name and its fylke (the two `try` blocks of `create_main_table`).
 * The two lookup tables come from outside the program and are parameters.
 */
module Region {
  import opened PyStr

  /** A warning logged for a region that is skipped. */
  datatype Warning = NoKommuneName(code: string) | NoFylke(code: string)

  /** Errors that end the whole run. */
  datatype Failure =
    | MalformedCode(code: string)  // the ValueError re-raised for a non-numeric code other than ZZ
    | UnboundFylkeNr(code: string) // a ZZ row needs a fylke_nr that no earlier region assigned

  /**
   * What the two lookups make of a region directory: a kommune name and, for
   * a numeric code, its (fylke name, fylke number); or a warning and no row;
   * or an error.
   */
  datatype Resolution =
    | Resolved(kommuneName: string, fylke: Option<(string, int)>)
    | Skipped(warning: Warning)
    | Failed(failure: Failure)

  /** The directory of places outside the mainland. */
  const OutsideCode: string := "ZZ"

  /** `ZZ` is never read as a number. */
  lemma OutsideCodeNotNumeric()
    ensures ParseInt(OutsideCode) == None
  {
    ParseIntNeedsDigit(OutsideCode);
  }

  /**
   * `kommune_nr2name[int(code)] + ' kommune'` followed by
   * `kommuneNr_2_fylke[int(code)]`, with their `except` branches.
   */
  function Resolve(code: string, kommuneNames: map<int, string>,
                   kommuneFylke: map<int, (string, int)>): (r: Resolution)
    ensures r.Failed? <==> ParseInt(code).None? && code != OutsideCode
    ensures r.Failed? ==> r.failure == MalformedCode(code)
    ensures r.Skipped? <==> (ParseInt(code).Some? &&
      (ParseInt(code).value !in kommuneNames || ParseInt(code).value !in kommuneFylke))
    ensures r.Skipped? ==> (r.warning.code == code &&
      (r.warning.NoKommuneName? <==> ParseInt(code).value !in kommuneNames))
    ensures r == Resolved("Outside mainland", None) <==> code == OutsideCode
    ensures ParseInt(code).Some? && ParseInt(code).value in kommuneNames &&
            ParseInt(code).value in kommuneFylke ==>
      r == Resolved(kommuneNames[ParseInt(code).value] + " kommune", Some(kommuneFylke[ParseInt(code).value]))
    ensures r.Resolved? && r.fylke.Some? ==>
      var k := ParseInt(code).value;
      k in kommuneNames && k in kommuneFylke &&
      r.kommuneName == kommuneNames[k] + " kommune" && r.fylke.value == kommuneFylke[k]
  {
    OutsideCodeNotNumeric();
    match ParseInt(code)
    case None =>
      if code == OutsideCode then Resolved("Outside mainland", None)
      else Failed(MalformedCode(code))
    case Some(k) =>
      if k !in kommuneNames then Skipped(NoKommuneName(code))
      else if k !in kommuneFylke then Skipped(NoFylke(code))
      else Resolved(kommuneNames[k] + " kommune", Some(kommuneFylke[k]))
  }

  /** The text of the warning as logged. */
  function Message(w: Warning): (m: string)
    ensures Contains(m, w.code)
  {
    var (before, after) := match w
      case NoKommuneName(_) => ("Could not translate kommune_nr = ", " to a name. Skipping")
      case NoFylke(_) => ("Could not translate kommune_nr = ", " to a fylke-name. Skipping");
    ContainsMiddle(before, w.code, after);
    before + w.code + after
  }

  /**
   * A region whose name reads as a number present in both tables resolves to
   * its kommune name and fylke pair, whatever leading zeros or whitespace the
   * name carries (`0301` is number 301).
   */
  lemma ResolveKnownNumber(code: string, n: int, kommuneNames: map<int, string>,
                           kommuneFylke: map<int, (string, int)>)
    requires ParseInt(code) == Some(n) && n in kommuneNames && n in kommuneFylke
    ensures Resolve(code, kommuneNames, kommuneFylke) ==
      Resolved(kommuneNames[n] + " kommune", Some(kommuneFylke[n]))
  {
  }

  /** A number missing from the name table is skipped with a warning naming the directory. */
  lemma ResolveUnknownNumber(code: string, n: int, kommuneNames: map<int, string>,
                             kommuneFylke: map<int, (string, int)>)
    requires ParseInt(code) == Some(n) && n !in kommuneNames
    ensures Resolve(code, kommuneNames, kommuneFylke) == Skipped(NoKommuneName(code))
  {
  }

  /** The numbers written with one leading zero, as the kommune directories `0101`..`0999` are. */
  lemma ResolveZeroPadded(n: nat, kommuneNames: map<int, string>,
                          kommuneFylke: map<int, (string, int)>)
    requires n in kommuneNames && n in kommuneFylke
    ensures Resolve("0" + NatToString(n), kommuneNames, kommuneFylke) ==
      Resolved(kommuneNames[n] + " kommune", Some(kommuneFylke[n]))
  {
    ParseIntZeroPadded(n);
    ResolveKnownNumber("0" + NatToString(n), n, kommuneNames, kommuneFylke);
  }
}
