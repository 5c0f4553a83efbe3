/**
 * How extraction and merging compose: the per-page tables that
 * `process_responses` builds from a walk are what `merge_dfs` combines.
 */
module Pipeline {
  import opened Wrappers
  import opened Telemetry
  import opened Extraction
  import opened Merge

  /** The parameter IDs that occur on any page of a walk. */
  function AllPids(pages: seq<Page>): set<ParamId> {
    if pages == [] then {} else AllPids(pages[..|pages| - 1]) + Pids(pages[|pages| - 1].parameters)
  }

  /** Per-page tables extracted successfully from `pages`, page by page. */
  ghost predicate ExtractedAll(pages: seq<Page>, names: ParameterNames, units: UnitNames, tables: seq<ParamTables>) {
    && |tables| == |pages|
    && forall i :: 0 <= i < |pages| ==> Extracted(pages[i], names, units) == Success(tables[i])
  }

  lemma ExtractedAllPrefix(pages: seq<Page>, names: ParameterNames, units: UnitNames, tables: seq<ParamTables>)
    requires ExtractedAll(pages, names, units, tables) && pages != []
    ensures ExtractedAll(pages[..|pages| - 1], names, units, tables[..|tables| - 1])
    ensures Extracted(pages[|pages| - 1], names, units) == Success(tables[|tables| - 1])
  {
  }

  /** The merged key set is exactly the set of parameter IDs that appear on the pages. */
  lemma {:induction false} MergedKeysArePageParameters(pages: seq<Page>, names: ParameterNames, units: UnitNames, tables: seq<ParamTables>)
    requires ExtractedAll(pages, names, units, tables)
    ensures AllKeys(tables) == AllPids(pages)
  {
    if pages != [] {
      ExtractedAllPrefix(pages, names, units, tables);
      MergedKeysArePageParameters(pages[..|pages| - 1], names, units, tables[..|tables| - 1]);
      ExtractedEntries(pages[|pages| - 1], names, units, tables[|tables| - 1]);
    }
  }

  /** A merged row annotated for `pid` that stems from one of the pages. */
  ghost predicate NamedRow(pages: seq<Page>, names: ParameterNames, pid: ParamId, row: Row)
    requires pid in names
  {
    row.paramName == names[pid] && exists i :: 0 <= i < |pages| && row.locationId == pages[i].locationId
  }

  /** The rows a single page contributes under `pid` are annotated for `pid` and that page. */
  lemma LastPageRowsNamed(page: Page, names: ParameterNames, units: UnitNames, t: ParamTables, pid: ParamId)
    requires Extracted(page, names, units) == Success(t)
    requires pid in t
    ensures pid in names
    ensures forall row :: row in t[pid] ==> row.paramName == names[pid] && row.locationId == page.locationId
  {
    ExtractedEntries(page, names, units, t);
    var k :| EntryFrom(page, names, units, t, pid, k);
  }

  /** A row named for one of the first pages is named for the whole list. */
  lemma NamedRowExtends(pages: seq<Page>, names: ParameterNames, pid: ParamId, row: Row)
    requires pages != [] && pid in names
    requires NamedRow(pages[..|pages| - 1], names, pid, row)
    ensures NamedRow(pages, names, pid, row)
  {
    var i :| 0 <= i < |pages| - 1 && row.locationId == pages[..|pages| - 1][i].locationId;
    assert row.locationId == pages[i].locationId;
  }

  /**
   * Every row merged under a parameter ID carries that parameter's display
   * name and one of the walk's location IDs.
   */
  lemma {:induction false} MergedRowsNamed(pages: seq<Page>, names: ParameterNames, units: UnitNames, tables: seq<ParamTables>, pid: ParamId)
    requires ExtractedAll(pages, names, units, tables)
    requires pid in AllKeys(tables)
    ensures pid in names
    ensures forall row :: row in Gather(tables, pid) ==> NamedRow(pages, names, pid, row)
  {
    var n := |pages|;
    var front, frontTables, last := pages[..n - 1], tables[..n - 1], tables[n - 1];
    ExtractedAllPrefix(pages, names, units, tables);
    var rest := if pid in last then last[pid] else [];
    assert Gather(tables, pid) == Gather(frontTables, pid) + rest;
    if pid in last {
      LastPageRowsNamed(pages[n - 1], names, units, last, pid);
    }
    if pid in AllKeys(frontTables) {
      MergedRowsNamed(front, names, units, frontTables, pid);
    } else {
      GatherEmpty(frontTables, pid);
    }
    forall row | row in Gather(tables, pid)
      ensures NamedRow(pages, names, pid, row)
    {
      if row in Gather(frontTables, pid) {
        NamedRowExtends(pages, names, pid, row);
      } else {
        assert row in rest;
        assert row.locationId == pages[n - 1].locationId;
      }
    }
  }
}
