/**
 * The cross-page merge (`merge_dfs`): the tables of all pages of a walk,
 * concatenated key by key in page order.
 */
module Merge {
  import opened Telemetry

  /** Every parameter ID that some page's tables carry. */
  function AllKeys(ds: seq<ParamTables>): set<ParamId> {
    if ds == [] then {} else AllKeys(ds[..|ds| - 1]) + ds[|ds| - 1].Keys
  }

  /** The tables of `key`, page by page in page order; pages without `key` add nothing. */
  function Gather(ds: seq<ParamTables>, key: ParamId): Table {
    if ds == [] then []
    else
      var d := ds[|ds| - 1];
      Gather(ds[..|ds| - 1], key) + (if key in d then d[key] else [])
  }

  /** The concatenation of a list of tables (`pd.concat` with a fresh index). */
  function Concat(ts: seq<Table>): Table {
    if ts == [] then [] else Concat(ts[..|ts| - 1]) + ts[|ts| - 1]
  }

  /** The distinct entries of a key list (Python's `set(...)`). */
  function Elements(s: seq<ParamId>): set<ParamId> {
    if s == [] then {} else Elements(s[..|s| - 1]) + {s[|s| - 1]}
  }

  /** A set of keys none of which is a member is the empty set. */
  lemma NoMemberEmpty(s: set<ParamId>)
    requires forall k :: k !in s
    ensures s == {}
  {
    assert forall k :: k in s <==> k in {};
  }

  /** A key is merged exactly when at least one page carries it. */
  lemma {:induction false} AllKeysIsUnion(ds: seq<ParamTables>, key: ParamId)
    ensures key in AllKeys(ds) <==> exists i :: 0 <= i < |ds| && key in ds[i]
  {
    if ds != [] {
      var front := ds[..|ds| - 1];
      AllKeysIsUnion(front, key);
      if exists i :: 0 <= i < |ds| && key in ds[i] {
        var i :| 0 <= i < |ds| && key in ds[i];
        if i < |ds| - 1 {
          assert key in front[i];
        }
      }
      if exists i :: 0 <= i < |front| && key in front[i] {
        var i :| 0 <= i < |front| && key in front[i];
        assert key in ds[i];
      }
    }
  }

  /** A key no page carries gathers no rows. */
  lemma {:induction false} GatherEmpty(ds: seq<ParamTables>, key: ParamId)
    requires key !in AllKeys(ds)
    ensures Gather(ds, key) == []
  {
    if ds != [] {
      GatherEmpty(ds[..|ds| - 1], key);
    }
  }

  /**
   * Merging splits along the page list: the rows of a key for pages `a`
   * then `b` are the rows for `a` followed by the rows for `b`.
   */
  lemma {:induction false} GatherSplit(a: seq<ParamTables>, b: seq<ParamTables>, key: ParamId)
    ensures Gather(a + b, key) == Gather(a, key) + Gather(b, key)
  {
    if b != [] {
      var b' := b[..|b| - 1];
      assert (a + b)[..|a + b| - 1] == a + b';
      GatherSplit(a, b', key);
    } else {
      assert a + b == a;
    }
  }

  /** A page that lacks the key leaves that key's merged rows unchanged wherever it stands. */
  lemma GatherSkipsPage(a: seq<ParamTables>, d: ParamTables, b: seq<ParamTables>, key: ParamId)
    requires key !in d
    ensures Gather(a + [d] + b, key) == Gather(a + b, key)
  {
    GatherSplit(a + [d], b, key);
    GatherSplit(a, b, key);
    assert (a + [d])[..|a + [d]| - 1] == a;
  }

  /**
   * Two pages, the first with keys {x, y} and the second with {y, z}. The
   * merge has keys {x, y, z}; y's rows are the first page's followed by the
   * second's, and x and z keep their single page's rows.
   */
  lemma TwoPageMerge(a: ParamTables, b: ParamTables, x: ParamId, y: ParamId, z: ParamId)
    requires a.Keys == {x, y} && b.Keys == {y, z}
    requires x != y && y != z && x != z
    ensures AllKeys([a, b]) == {x, y, z}
    ensures Gather([a, b], y) == a[y] + b[y]
    ensures Gather([a, b], x) == a[x] && Gather([a, b], z) == b[z]
  {
    assert [a, b][..1] == [a];
    assert [a][..0] == [];
    assert AllKeys([a]) == a.Keys;
    assert forall k :: Gather([a], k) == (if k in a then a[k] else []);
  }

  /** The first half of `merge_dfs`: every key of every page, in visiting order, repeats kept. */
  method CollectKeys(dictList: seq<ParamTables>) returns (keyList: seq<ParamId>)
    ensures Elements(keyList) == AllKeys(dictList)
  {
    keyList := [];
    var i := 0;
    while i < |dictList|
      invariant 0 <= i <= |dictList|
      invariant Elements(keyList) == AllKeys(dictList[..i])
    {
      var d := dictList[i];
      var pending := d.Keys;
      while pending != {}
        invariant pending <= d.Keys
        invariant Elements(keyList) == AllKeys(dictList[..i]) + (d.Keys - pending)
        decreases pending
      {
        // A key is left to pick: the solver does not find a member of a non-empty set unaided.
        if forall k :: k !in pending {
          NoMemberEmpty(pending);
          assert false;
        }
        var key :| key in pending;
        assert (keyList + [key])[..|keyList|] == keyList;
        keyList := keyList + [key];
        pending := pending - {key};
      }
      assert dictList[..i + 1][..i] == dictList[..i];
      i := i + 1;
    }
    assert dictList[..i] == dictList;
  }

  /** The inner loop of `merge_dfs`: the tables of `key`, from the pages that carry it, in page order. */
  method TablesOfKey(dictList: seq<ParamTables>, key: ParamId) returns (dfsToConcat: seq<Table>)
    ensures Concat(dfsToConcat) == Gather(dictList, key)
    ensures dfsToConcat != [] <==> exists m :: 0 <= m < |dictList| && key in dictList[m]
  {
    dfsToConcat := [];
    var j := 0;
    while j < |dictList|
      invariant 0 <= j <= |dictList|
      invariant Concat(dfsToConcat) == Gather(dictList[..j], key)
      invariant dfsToConcat != [] <==> exists m :: 0 <= m < j && key in dictList[m]
    {
      if key in dictList[j] {
        dfsToConcat := dfsToConcat + [dictList[j][key]];
      }
      assert dictList[..j + 1][..j] == dictList[..j];
      j := j + 1;
    }
    assert dictList[..j] == dictList;
  }

  /**
   * The source's `merge_dfs`: the key set is the union of the pages' keys,
   * every key gets an entry, and that entry is its tables concatenated in
   * page order.
   */
  method MergeDfs(dictList: seq<ParamTables>) returns (keys: set<ParamId>, combined: ParamTables)
    ensures keys == AllKeys(dictList)
    ensures combined.Keys == keys
    ensures forall key :: key in combined ==> combined[key] == Gather(dictList, key)
  {
    var keyList := CollectKeys(dictList);
    keys := Elements(keyList);

    combined := map[];
    var remaining := keys;
    while remaining != {}
      invariant remaining <= keys
      invariant combined.Keys == keys - remaining
      invariant forall k :: k in combined ==> combined[k] == Gather(dictList, k)
      decreases remaining
    {
      // A key is left to pick: the solver does not find a member of a non-empty set unaided.
      if forall k :: k !in remaining {
        NoMemberEmpty(remaining);
        assert false;
      }
      var key :| key in remaining;
      var dfsToConcat := TablesOfKey(dictList, key);
      AllKeysIsUnion(dictList, key);
      if dfsToConcat != [] {
        combined := combined[key := Concat(dfsToConcat)];
      }
      remaining := remaining - {key};
    }
  }
}
