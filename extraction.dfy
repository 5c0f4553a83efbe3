/**
 * Per-page extraction (`extract_param_data`) and its driver over all pages
 * of a walk (`process_responses`): each parameter of a page becomes a table
 * of its readings, annotated with the parameter's friendly name, its unit's
 * friendly name and the page's location ID.
 */
module Extraction {
  import opened Wrappers
  import opened Telemetry

  /** The parameter-ID to friendly-name lookup table. */
  type ParameterNames = map<ParamId, string>

  /** The unit-ID to friendly-name lookup table. */
  type UnitNames = map<UnitId, string>

  /** The key error raised by a lookup in one of the two tables. */
  datatype LookupError = UnknownParameter(parameterId: ParamId) | UnknownUnit(unitId: UnitId)

  /** The table of a reading list, with the three annotation columns set to constants. */
  function Annotate(readings: seq<Reading>, paramName: string, unitName: string, loc: LocationId): Table {
    seq(|readings|, i requires 0 <= i < |readings| =>
      Row(readings[i].timestamp, readings[i].value, paramName, unitName, loc))
  }

  /** The timestamp and value columns of a table. */
  function ReadingsOf(t: Table): seq<Reading> {
    seq(|t|, i requires 0 <= i < |t| => Reading(t[i].timestamp, t[i].value))
  }

  /** Both IDs of a parameter are in their lookup tables. */
  ghost predicate Known(p: Parameter, names: ParameterNames, units: UnitNames) {
    p.parameterId in names && p.unitId in units
  }

  /** The error the two lookups for one parameter raise, the parameter lookup first. */
  function LookupFailure(p: Parameter, names: ParameterNames, units: UnitNames): (e: Option<LookupError>)
    ensures e.None? <==> Known(p, names, units)
  {
    if p.parameterId !in names then Some(UnknownParameter(p.parameterId))
    else if p.unitId !in units then Some(UnknownUnit(p.unitId))
    else None
  }

  /**
   * The error raised while walking the parameters in order: that of the
   * first parameter with an unknown ID, or None when every ID is known.
   */
  function FirstFailure(ps: seq<Parameter>, names: ParameterNames, units: UnitNames): (e: Option<LookupError>)
    ensures e.None? <==> forall i :: 0 <= i < |ps| ==> Known(ps[i], names, units)
    ensures e.Some? ==>
      exists k :: 0 <= k < |ps|
        && (forall j :: 0 <= j < k ==> Known(ps[j], names, units))
        && LookupFailure(ps[k], names, units) == e
  {
    if ps == [] then None
    else if LookupFailure(ps[0], names, units).Some? then LookupFailure(ps[0], names, units)
    else
      var e := FirstFailure(ps[1..], names, units);
      assert forall i :: 1 <= i < |ps| ==> ps[i] == ps[1..][i - 1];
      e
  }

  /** The parameter IDs a page lists. */
  function Pids(ps: seq<Parameter>): set<ParamId> {
    set p | p in ps :: p.parameterId
  }

  /** The index of the last parameter with ID `pid`, or -1 when there is none. */
  function LastIndexOf(ps: seq<Parameter>, pid: ParamId): (k: int)
    ensures -1 <= k < |ps|
    ensures k >= 0 ==> ps[k].parameterId == pid
    ensures forall j :: k < j < |ps| ==> ps[j].parameterId != pid
    ensures k >= 0 <==> pid in Pids(ps)
  {
    if ps == [] then -1
    else if ps[|ps| - 1].parameterId == pid then |ps| - 1
    else
      var k := LastIndexOf(ps[..|ps| - 1], pid);
      assert forall j :: 0 <= j < |ps| - 1 ==> ps[..|ps| - 1][j] == ps[j];
      assert pid in Pids(ps) ==> pid in Pids(ps[..|ps| - 1]) by {
        if pid in Pids(ps) {
          var p :| p in ps && p.parameterId == pid;
          assert p in ps[..|ps| - 1];
        }
      }
      k
  }

  /**
   * The tables of a page whose IDs are all known: one entry per parameter
   * ID, built from the LAST parameter with that ID.
   */
  function Tables(ps: seq<Parameter>, names: ParameterNames, units: UnitNames, loc: LocationId): ParamTables
    requires forall i :: 0 <= i < |ps| ==> Known(ps[i], names, units)
  {
    map pid | pid in Pids(ps) ::
      var k := LastIndexOf(ps, pid);
      assert Known(ps[k], names, units);
      Annotate(ps[k].readings, names[pid], units[ps[k].unitId], loc)
  }

  /** What extracting a page yields: its tables, or the first lookup error. */
  function Extracted(page: Page, names: ParameterNames, units: UnitNames): Result<ParamTables, LookupError> {
    match FirstFailure(page.parameters, names, units)
    case Some(e) => Failure(e)
    case None => Success(Tables(page.parameters, names, units, page.locationId))
  }

  /** A table built by annotation keeps the readings and carries the annotations on every row. */
  lemma AnnotateKeepsReadings(readings: seq<Reading>, paramName: string, unitName: string, loc: LocationId)
    ensures ReadingsOf(Annotate(readings, paramName, unitName, loc)) == readings
    ensures forall row :: row in Annotate(readings, paramName, unitName, loc) ==>
      row.paramName == paramName && row.unitName == unitName && row.locationId == loc
  {
  }

  /** Adding one more parameter sets (or overwrites) the entry of its ID and no other. */
  lemma TablesSnoc(ps: seq<Parameter>, p: Parameter, names: ParameterNames, units: UnitNames, loc: LocationId)
    requires forall i :: 0 <= i < |ps| ==> Known(ps[i], names, units)
    requires Known(p, names, units)
    ensures forall i :: 0 <= i < |ps + [p]| ==> Known((ps + [p])[i], names, units)
    ensures Tables(ps + [p], names, units, loc)
         == Tables(ps, names, units, loc)[p.parameterId := Annotate(p.readings, names[p.parameterId], units[p.unitId], loc)]
  {
    var qs := ps + [p];
    assert forall i :: 0 <= i < |ps| ==> qs[i] == ps[i];
    assert qs[..|ps|] == ps;
    assert Pids(qs) == Pids(ps) + {p.parameterId} by {
      forall pid | pid in Pids(qs) ensures pid in Pids(ps) + {p.parameterId} {
        var x :| x in qs && x.parameterId == pid;
        if x != p {
          assert x in ps;
        }
      }
    }
  }

  /** A failing parameter preceded only by known ones determines the error raised. */
  lemma {:induction false} FirstFailureAt(ps: seq<Parameter>, i: nat, names: ParameterNames, units: UnitNames)
    requires i < |ps|
    requires forall j :: 0 <= j < i ==> Known(ps[j], names, units)
    requires LookupFailure(ps[i], names, units).Some?
    ensures FirstFailure(ps, names, units) == LookupFailure(ps[i], names, units)
  {
    if i > 0 {
      assert forall j :: 0 <= j < |ps| - 1 ==> ps[1..][j] == ps[j + 1];
      FirstFailureAt(ps[1..], i - 1, names, units);
    }
  }

  /** The source's `extract_param_data`. */
  method ExtractParamData(page: Page, names: ParameterNames, units: UnitNames)
    returns (r: Result<ParamTables, LookupError>)
    ensures r == Extracted(page, names, units)
  {
    var ps := page.parameters;
    var locId := page.locationId;
    var results: ParamTables := map[];
    var i := 0;
    while i < |ps|
      invariant 0 <= i <= |ps|
      invariant forall j :: 0 <= j < i ==> Known(ps[j], names, units)
      invariant results == Tables(ps[..i], names, units, locId)
    {
      var param := ps[i];
      var pid := param.parameterId;
      if pid !in names {
        FirstFailureAt(ps, i, names, units);
        return Failure(UnknownParameter(pid));
      }
      var paramName := names[pid];
      if param.unitId !in units {
        FirstFailureAt(ps, i, names, units);
        return Failure(UnknownUnit(param.unitId));
      }
      var df := Annotate(param.readings, paramName, units[param.unitId], locId);
      TablesSnoc(ps[..i], param, names, units, locId);
      assert ps[..i + 1] == ps[..i] + [param];
      results := results[pid := df];
      i := i + 1;
    }
    assert ps[..i] == ps;
    return Success(results);
  }

  /**
   * A page extracts successfully exactly when every parameter and unit ID it
   * lists is known; otherwise the error names the ID missing from its table,
   * for the first parameter in page order that has one.
   */
  lemma ExtractedFailsOnUnknownIds(page: Page, names: ParameterNames, units: UnitNames)
    ensures Extracted(page, names, units).Success?
        <==> forall i :: 0 <= i < |page.parameters| ==> Known(page.parameters[i], names, units)
    ensures Extracted(page, names, units).Failure? ==>
      var e := Extracted(page, names, units).error;
      exists k :: 0 <= k < |page.parameters|
        && (forall j :: 0 <= j < k ==> Known(page.parameters[j], names, units))
        && var p := page.parameters[k];
           || (e == UnknownParameter(p.parameterId) && p.parameterId !in names)
           || (e == UnknownUnit(p.unitId) && p.parameterId in names && p.unitId !in units)
  {
  }

  /** The entry of one ID, read off the last parameter with that ID. */
  lemma TableEntry(ps: seq<Parameter>, names: ParameterNames, units: UnitNames, loc: LocationId, pid: ParamId)
    requires forall i :: 0 <= i < |ps| ==> Known(ps[i], names, units)
    requires pid in Pids(ps)
    ensures var k := LastIndexOf(ps, pid);
      && 0 <= k < |ps|
      && ReadingsOf(Tables(ps, names, units, loc)[pid]) == ps[k].readings
      && (forall row :: row in Tables(ps, names, units, loc)[pid] ==>
            row.paramName == names[pid] && row.unitName == units[ps[k].unitId] && row.locationId == loc)
  {
    var k := LastIndexOf(ps, pid);
    AnnotateKeepsReadings(ps[k].readings, names[pid], units[ps[k].unitId], loc);
  }

  /**
   * The entry `t[pid]` was built from the parameter at index `k`: the last one
   * with that ID. It holds that parameter's readings, and every row carries
   * the ID's friendly name, the friendly name of that parameter's unit, and
   * the page's location ID.
   */
  ghost predicate EntryFrom(page: Page, names: ParameterNames, units: UnitNames, t: ParamTables, pid: ParamId, k: int)
    requires pid in t
  {
    var ps := page.parameters;
    && 0 <= k < |ps|
    && ps[k].parameterId == pid
    && (forall j :: k < j < |ps| ==> ps[j].parameterId != pid)
    && ps[k].unitId in units && pid in names
    && ReadingsOf(t[pid]) == ps[k].readings
    && (forall row :: row in t[pid] ==>
          row.paramName == names[pid] && row.unitName == units[ps[k].unitId] && row.locationId == page.locationId)
  }

  /**
   * A successful extraction has exactly one entry per parameter ID of the
   * page, and each entry is built from the last parameter with its ID.
   */
  lemma ExtractedEntries(page: Page, names: ParameterNames, units: UnitNames, t: ParamTables)
    requires Extracted(page, names, units) == Success(t)
    ensures t.Keys == Pids(page.parameters)
    ensures forall pid :: pid in t ==> exists k :: EntryFrom(page, names, units, t, pid, k)
  {
    var ps := page.parameters;
    assert t == Tables(ps, names, units, page.locationId);
    forall pid | pid in t
      ensures exists k :: EntryFrom(page, names, units, t, pid, k)
    {
      TableEntry(ps, names, units, page.locationId, pid);
      assert EntryFrom(page, names, units, t, pid, LastIndexOf(ps, pid));
    }
  }

  /** The source's `process_responses`: extract every page in order; the first lookup error aborts. */
  method ProcessResponses(pages: seq<Page>, names: ParameterNames, units: UnitNames)
    returns (r: Result<seq<ParamTables>, LookupError>)
    ensures r.Success? ==>
      && |r.value| == |pages|
      && forall i :: 0 <= i < |pages| ==> Extracted(pages[i], names, units) == Success(r.value[i])
    ensures r.Failure? ==>
      exists k :: 0 <= k < |pages|
        && (forall j :: 0 <= j < k ==> Extracted(pages[j], names, units).Success?)
        && Extracted(pages[k], names, units) == Failure(r.error)
  {
    var dictList: seq<ParamTables> := [];
    var i := 0;
    while i < |pages|
      invariant 0 <= i <= |pages|
      invariant |dictList| == i
      invariant forall j :: 0 <= j < i ==> Extracted(pages[j], names, units) == Success(dictList[j])
    {
      var data := ExtractParamData(pages[i], names, units);
      if data.Failure? {
        return Failure(data.error);
      }
      dictList := dictList + [data.value];
      i := i + 1;
    }
    return Success(dictList);
  }
}
