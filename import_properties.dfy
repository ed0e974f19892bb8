/**
  Properties of an import run, proved about the functions of ImportSpec.

  The reference definition is `Written`: for one locale, the map from key id to the
  last text the run writes there. The central lemma, `ImportedTablesOverlay`, says
  that every table after the run is the table before it overridden by `Written`;
  idempotence, "other locales and ids untouched" and "no table is created" follow.
*/
module ImportProperties {
  import opened Options
  import opened LocalizationTables
  import opened ImportSpec

  /**
    The text the mappings of one row leave in locale `loc`: that of the LAST mapping
    for `loc` whose column the row has (empty when the column holds null), or None
    when no mapping for `loc` has its column.
  */
  function LastMappedValue(row: Row, mappings: seq<LocaleMapping>, loc: string): Option<string>
    decreases |mappings|
  {
    if |mappings| == 0 then None
    else
      var m := mappings[|mappings| - 1];
      if m.localeCode == loc && m.sourceColumn in row then Some(row[m.sourceColumn].GetOr(""))
      else LastMappedValue(row, mappings[..|mappings| - 1], loc)
  }

  /** What one row writes into locale `loc` under `id`. */
  function RowWrites(row: Row, mappings: seq<LocaleMapping>, id: int, loc: string): map<int, string> {
    match LastMappedValue(row, mappings, loc)
    case None => map[]
    case Some(v) => map[id := v]
  }

  /**
    What a run over `rows` writes into locale `loc`, each row under the id its key has
    in `registry`: later rows override earlier ones.
  */
  function Written(rows: seq<Row>, keyFieldName: string, mappings: seq<LocaleMapping>, registry: seq<KeyEntry>, loc: string): map<int, string>
    decreases |rows|
  {
    if |rows| == 0 then map[]
    else RowWritten(rows[0], keyFieldName, mappings, registry, loc) + Written(rows[1..], keyFieldName, mappings, registry, loc)
  }

  /** What one row writes into locale `loc`, under the id its key has in `registry`. */
  function RowWritten(row: Row, keyFieldName: string, mappings: seq<LocaleMapping>, registry: seq<KeyEntry>, loc: string): map<int, string> {
    match RowKey(row, keyFieldName)
    case None => map[]
    case Some(key) =>
      match FindByKey(registry, key)
      case None => map[]
      case Some(e) => RowWrites(row, mappings, e.id, loc)
  }

  /** Every row that has a key finds it in `registry`. */
  predicate AllKeysRegistered(rows: seq<Row>, keyFieldName: string, registry: seq<KeyEntry>) {
    forall i | 0 <= i < |rows| && RowKey(rows[i], keyFieldName).Some? ::
      FindByKey(registry, RowKey(rows[i], keyFieldName).value).Some?
  }

  /** Positions of the rows that have a non-empty key. */
  function KeyedRows(rows: seq<Row>, keyFieldName: string): set<int> {
    set i | 0 <= i < |rows| && RowKey(rows[i], keyFieldName).Some?
  }

  // ---------------------------------------------------------------------------
  // One row

  lemma {:induction false} MappingsAppliedSnoc(tables: map<string, StringTable>, row: Row, mappings: seq<LocaleMapping>, m: LocaleMapping, id: int)
    ensures MappingsApplied(tables, row, mappings + [m], id)
         == LocaleValueUpdated(MappingsApplied(tables, row, mappings, id), row, m, id)
    decreases |mappings|
  {
    if |mappings| == 0 {
      assert [m][1..] == [];
    } else {
      assert (mappings + [m])[1..] == mappings[1..] + [m];
      MappingsAppliedSnoc(LocaleValueUpdated(tables, row, mappings[0], id), row, mappings[1..], m, id);
    }
  }

  /**
    The mappings of one row run in list order: the table of `loc` gets under `id` the
    value of the last mapping for `loc` whose column exists (so with duplicate locale
    codes the last mapping wins); no other id of that table changes.
  */
  lemma {:induction false} MappingsLastWins(tables: map<string, StringTable>, row: Row, mappings: seq<LocaleMapping>, id: int, loc: string)
    requires loc in tables
    ensures loc in MappingsApplied(tables, row, mappings, id)
    ensures MappingsApplied(tables, row, mappings, id)[loc] == tables[loc] + RowWrites(row, mappings, id, loc)
    decreases |mappings|
  {
    if |mappings| == 0 {
      assert tables[loc] + map[] == tables[loc];
    } else {
      var init := mappings[..|mappings| - 1];
      var m := mappings[|mappings| - 1];
      assert mappings == init + [m];
      MappingsAppliedSnoc(tables, row, init, m, id);
      MappingsLastWins(tables, row, init, id, loc);
      var before := MappingsApplied(tables, row, init, id);
      var after := LocaleValueUpdated(before, row, m, id);
      if m.localeCode == loc && m.sourceColumn in row {
        var v := row[m.sourceColumn].GetOr("");
        assert after[loc] == before[loc][id := v];
        assert RowWrites(row, mappings, id, loc) == map[id := v];
        OverrideLast(tables[loc], RowWrites(row, init, id, loc), id, v);
      } else {
        assert after[loc] == before[loc];
        assert LastMappedValue(row, mappings, loc) == LastMappedValue(row, init, loc);
      }
    }
  }

  lemma OverrideAssociative(a: map<int, string>, b: map<int, string>, c: map<int, string>)
    ensures (a + b) + c == a + (b + c)
  {
  }

  /** Overriding one id with a map that holds at most that id, then setting it, is just setting it. */
  lemma OverrideLast(t: StringTable, w: map<int, string>, id: int, v: string)
    requires w.Keys <= {id}
    ensures (t + w)[id := v] == t + map[id := v]
  {
  }

  /** After a row's key is looked up or added, the lookup by name finds that entry. */
  lemma GetOrAddKeyFinds(c: Collection, key: string)
    ensures FindByKey(GetOrAddKey(c, key).0.entries, key) == Some(GetOrAddKey(c, key).1)
  {
    if FindByKey(c.entries, key).None? {
      var r := GetOrAddKey(c, key);
      assert r.0.entries[|c.entries|] == r.1;
    }
  }

  /** The row loop, one row at a time. */
  lemma RowsImportedStep(c: Collection, rows: seq<Row>, keyFieldName: string, mappings: seq<LocaleMapping>)
    requires |rows| != 0
    ensures RowsImported(c, rows, keyFieldName, mappings).0
         == RowsImported(RowImported(c, rows[0], keyFieldName, mappings).0, rows[1..], keyFieldName, mappings).0
  {
  }

  // ---------------------------------------------------------------------------
  // The registry

  /**
    The run only appends to the shared entries: every entry there before keeps its
    position, name and id, and the allocator never goes back.
  */
  lemma {:induction false} ImportKeepsExistingEntries(c: Collection, rows: seq<Row>, keyFieldName: string, mappings: seq<LocaleMapping>)
    ensures c.entries <= RowsImported(c, rows, keyFieldName, mappings).0.entries
    ensures c.nextId <= RowsImported(c, rows, keyFieldName, mappings).0.nextId
    decreases |rows|
  {
    if |rows| != 0 {
      var c1 := RowImported(c, rows[0], keyFieldName, mappings).0;
      ImportKeepsExistingEntries(c1, rows[1..], keyFieldName, mappings);
    }
  }

  /** An existing key is reused: its lookup by name gives the same entry, same id, after the run. */
  lemma ImportKeepsKeyIds(c: Collection, rows: seq<Row>, keyFieldName: string, mappings: seq<LocaleMapping>, key: string)
    requires FindByKey(c.entries, key).Some?
    ensures FindByKey(RowsImported(c, rows, keyFieldName, mappings).0.entries, key) == FindByKey(c.entries, key)
  {
    var e1 := RowsImported(c, rows, keyFieldName, mappings).0.entries;
    ImportKeepsExistingEntries(c, rows, keyFieldName, mappings);
    assert e1 == c.entries + e1[|c.entries|..];
    FindByKeyAppend(c.entries, e1[|c.entries|..], key);
  }

  /** After the run every row that has a key finds it in the shared entries. */
  lemma {:induction false} ImportRegistersEveryKey(c: Collection, rows: seq<Row>, keyFieldName: string, mappings: seq<LocaleMapping>)
    ensures AllKeysRegistered(rows, keyFieldName, RowsImported(c, rows, keyFieldName, mappings).0.entries)
    decreases |rows|
  {
    if |rows| != 0 {
      var c1 := RowImported(c, rows[0], keyFieldName, mappings).0;
      var final := RowsImported(c, rows, keyFieldName, mappings).0;
      ImportRegistersEveryKey(c1, rows[1..], keyFieldName, mappings);
      assert final == RowsImported(c1, rows[1..], keyFieldName, mappings).0;
      forall i | 0 <= i < |rows| && RowKey(rows[i], keyFieldName).Some?
        ensures FindByKey(final.entries, RowKey(rows[i], keyFieldName).value).Some?
      {
        if i == 0 {
          var key := RowKey(rows[0], keyFieldName).value;
          GetOrAddKeyFinds(c, key);
          ImportKeepsKeyIds(c1, rows[1..], keyFieldName, mappings, key);
        } else {
          assert rows[1..][i - 1] == rows[i];
        }
      }
    }
  }

  /** A run whose keys are all registered already adds no entry and allocates no id. */
  lemma {:induction false} RegisteredRunKeepsEntries(c: Collection, rows: seq<Row>, keyFieldName: string, mappings: seq<LocaleMapping>)
    requires AllKeysRegistered(rows, keyFieldName, c.entries)
    ensures RowsImported(c, rows, keyFieldName, mappings).0.entries == c.entries
    ensures RowsImported(c, rows, keyFieldName, mappings).0.nextId == c.nextId
    decreases |rows|
  {
    if |rows| != 0 {
      var c1 := RowImported(c, rows[0], keyFieldName, mappings).0;
      assert c1.entries == c.entries && c1.nextId == c.nextId by {
        if RowKey(rows[0], keyFieldName).Some? {
          assert 0 < |rows|;
        }
      }
      forall i | 0 <= i < |rows[1..]| && RowKey(rows[1..][i], keyFieldName).Some?
        ensures FindByKey(c1.entries, RowKey(rows[1..][i], keyFieldName).value).Some?
      {
        assert rows[1..][i] == rows[i + 1];
      }
      RegisteredRunKeepsEntries(c1, rows[1..], keyFieldName, mappings);
    }
  }

  // ---------------------------------------------------------------------------
  // The tables

  /**
    One row: the table of `loc` is overridden by what the row writes, provided the
    registry given maps the row's key to the entry the row was imported under.
  */
  lemma RowImportedOverlay(c: Collection, row: Row, keyFieldName: string, mappings: seq<LocaleMapping>, registry: seq<KeyEntry>, loc: string)
    requires loc in c.tables
    requires RowKey(row, keyFieldName).Some? ==>
      FindByKey(registry, RowKey(row, keyFieldName).value) == Some(GetOrAddKey(c, RowKey(row, keyFieldName).value).1)
    ensures loc in RowImported(c, row, keyFieldName, mappings).0.tables
    ensures RowImported(c, row, keyFieldName, mappings).0.tables[loc]
         == c.tables[loc] + RowWritten(row, keyFieldName, mappings, registry, loc)
  {
    if RowKey(row, keyFieldName).None? {
      assert c.tables[loc] + map[] == c.tables[loc];
    } else {
      var (ck, e) := GetOrAddKey(c, RowKey(row, keyFieldName).value);
      MappingsLastWins(c.tables, row, mappings, e.id, loc);
    }
  }

  /**
    Each table after the run is the table before it overridden by what the run writes
    there, each row under the id its key has in the final shared entries.
  */
  lemma {:induction false} ImportedTablesOverlay(c: Collection, rows: seq<Row>, keyFieldName: string, mappings: seq<LocaleMapping>, loc: string)
    requires loc in c.tables
    ensures loc in RowsImported(c, rows, keyFieldName, mappings).0.tables
    ensures RowsImported(c, rows, keyFieldName, mappings).0.tables[loc]
        == c.tables[loc] + Written(rows, keyFieldName, mappings, RowsImported(c, rows, keyFieldName, mappings).0.entries, loc)
    decreases |rows|
  {
    var final := RowsImported(c, rows, keyFieldName, mappings).0;
    if |rows| == 0 {
      assert c.tables[loc] + map[] == c.tables[loc];
    } else {
      var row := rows[0];
      var c1 := RowImported(c, row, keyFieldName, mappings).0;
      RowsImportedStep(c, rows, keyFieldName, mappings);
      assert final == RowsImported(c1, rows[1..], keyFieldName, mappings).0;
      if RowKey(row, keyFieldName).Some? {
        var key := RowKey(row, keyFieldName).value;
        GetOrAddKeyFinds(c, key);
        assert c1.entries == GetOrAddKey(c, key).0.entries;
        ImportKeepsKeyIds(c1, rows[1..], keyFieldName, mappings, key);
        assert FindByKey(final.entries, key) == Some(GetOrAddKey(c, key).1);
      }
      RowImportedOverlay(c, row, keyFieldName, mappings, final.entries, loc);
      ImportedTablesOverlay(c1, rows[1..], keyFieldName, mappings, loc);
      var h := RowWritten(row, keyFieldName, mappings, final.entries, loc);
      var w := Written(rows[1..], keyFieldName, mappings, final.entries, loc);
      assert c1.tables[loc] == c.tables[loc] + h;
      assert final.tables[loc] == c1.tables[loc] + w;
      OverrideAssociative(c.tables[loc], h, w);
      assert Written(rows, keyFieldName, mappings, final.entries, loc) == h + w;
    }
  }

  /** A locale no mapping names keeps its table exactly. */
  lemma {:induction false} UnmappedLocaleUnchanged(c: Collection, rows: seq<Row>, keyFieldName: string, mappings: seq<LocaleMapping>, loc: string)
    requires loc in c.tables
    requires forall m | m in mappings :: m.localeCode != loc
    ensures loc in RowsImported(c, rows, keyFieldName, mappings).0.tables
    ensures RowsImported(c, rows, keyFieldName, mappings).0.tables[loc] == c.tables[loc]
  {
    var final := RowsImported(c, rows, keyFieldName, mappings).0;
    ImportedTablesOverlay(c, rows, keyFieldName, mappings, loc);
    NothingWrittenToUnmappedLocale(rows, keyFieldName, mappings, final.entries, loc);
    assert c.tables[loc] + map[] == c.tables[loc];
  }

  lemma {:induction false} NoValueForUnmappedLocale(row: Row, mappings: seq<LocaleMapping>, loc: string)
    requires forall m | m in mappings :: m.localeCode != loc
    ensures LastMappedValue(row, mappings, loc).None?
    decreases |mappings|
  {
    if |mappings| != 0 {
      assert mappings[|mappings| - 1] in mappings;
      NoValueForUnmappedLocale(row, mappings[..|mappings| - 1], loc);
    }
  }

  lemma {:induction false} NothingWrittenToUnmappedLocale(rows: seq<Row>, keyFieldName: string, mappings: seq<LocaleMapping>, registry: seq<KeyEntry>, loc: string)
    requires forall m | m in mappings :: m.localeCode != loc
    ensures Written(rows, keyFieldName, mappings, registry, loc) == map[]
    decreases |rows|
  {
    if |rows| != 0 {
      NoValueForUnmappedLocale(rows[0], mappings, loc);
      NothingWrittenToUnmappedLocale(rows[1..], keyFieldName, mappings, registry, loc);
    }
  }

  /**
    Only ids of imported keys are written: an id the run writes into a locale is the
    id, in the registry, of the key of some row that has one.
  */
  lemma {:induction false} WrittenIdsAreRowKeys(rows: seq<Row>, keyFieldName: string, mappings: seq<LocaleMapping>, registry: seq<KeyEntry>, loc: string, id: int)
    requires id in Written(rows, keyFieldName, mappings, registry, loc)
    ensures exists i :: 0 <= i < |rows| && RowKey(rows[i], keyFieldName).Some?
                        && FindByKey(registry, RowKey(rows[i], keyFieldName).value).Some?
                        && FindByKey(registry, RowKey(rows[i], keyFieldName).value).value.id == id
    decreases |rows|
  {
    var rest := Written(rows[1..], keyFieldName, mappings, registry, loc);
    if id in rest {
      WrittenIdsAreRowKeys(rows[1..], keyFieldName, mappings, registry, loc, id);
      var i :| 0 <= i < |rows[1..]| && RowKey(rows[1..][i], keyFieldName).Some?
                && FindByKey(registry, RowKey(rows[1..][i], keyFieldName).value).Some?
                && FindByKey(registry, RowKey(rows[1..][i], keyFieldName).value).value.id == id;
      assert rows[1..][i] == rows[i + 1];
    } else {
      assert RowKey(rows[0], keyFieldName).Some?;
    }
  }

  // ---------------------------------------------------------------------------
  // Whole-run properties

  /**
    Importing the same rows a second time changes nothing: the shared entries, the
    allocator and every table are as the first run left them.
  */
  lemma ImportIdempotent(c: Collection, rows: seq<Row>, keyFieldName: string, mappings: seq<LocaleMapping>)
    ensures var once := RowsImported(c, rows, keyFieldName, mappings).0;
            RowsImported(once, rows, keyFieldName, mappings).0 == once
  {
    var once := RowsImported(c, rows, keyFieldName, mappings).0;
    var twice := RowsImported(once, rows, keyFieldName, mappings).0;
    ImportRegistersEveryKey(c, rows, keyFieldName, mappings);
    RegisteredRunKeepsEntries(once, rows, keyFieldName, mappings);
    forall loc | loc in once.tables ensures twice.tables[loc] == once.tables[loc] {
      ImportedTablesOverlay(c, rows, keyFieldName, mappings, loc);
      ImportedTablesOverlay(once, rows, keyFieldName, mappings, loc);
      var w := Written(rows, keyFieldName, mappings, once.entries, loc);
      assert (c.tables[loc] + w) + w == c.tables[loc] + w;
    }
    assert twice.tables == once.tables;
  }

  /** `updatedCount` is the number of rows with a non-empty key, whatever the mappings wrote. */
  lemma {:induction false} ImportCountsKeyedRows(c: Collection, rows: seq<Row>, keyFieldName: string, mappings: seq<LocaleMapping>)
    ensures RowsImported(c, rows, keyFieldName, mappings).1 == |KeyedRows(rows, keyFieldName)|
    decreases |rows|
  {
    if |rows| != 0 {
      var c1 := RowImported(c, rows[0], keyFieldName, mappings).0;
      ImportCountsKeyedRows(c1, rows[1..], keyFieldName, mappings);
      KeyedRowsSplit(rows, keyFieldName);
    }
  }

  /** Counting keyed rows from the front: the first row, then the rest. */
  lemma {:induction false} KeyedRowsSplit(rows: seq<Row>, keyFieldName: string)
    requires |rows| != 0
    ensures |KeyedRows(rows, keyFieldName)|
         == (if RowKey(rows[0], keyFieldName).Some? then 1 else 0) + |KeyedRows(rows[1..], keyFieldName)|
    decreases |rows|
  {
    var n := |rows| - 1;
    var last := rows[n];
    KeyedRowsSnoc(rows[..n], last, keyFieldName);
    assert rows[..n] + [last] == rows;
    if n == 0 {
      assert KeyedRows(rows[1..], keyFieldName) == {};
      assert KeyedRows(rows[..n], keyFieldName) == {};
    } else {
      var init := rows[..n];
      KeyedRowsSplit(init, keyFieldName);
      assert init[1..] + [last] == rows[1..];
      KeyedRowsSnoc(init[1..], last, keyFieldName);
      assert init[0] == rows[0];
    }
  }

  /** Counting keyed rows from the back: all but the last row, then the last. */
  lemma KeyedRowsSnoc(rows: seq<Row>, last: Row, keyFieldName: string)
    ensures |KeyedRows(rows + [last], keyFieldName)|
         == |KeyedRows(rows, keyFieldName)| + (if RowKey(last, keyFieldName).Some? then 1 else 0)
  {
    var all := rows + [last];
    assert forall i :: 0 <= i < |rows| ==> all[i] == rows[i];
    if RowKey(last, keyFieldName).Some? {
      assert KeyedRows(all, keyFieldName) == KeyedRows(rows, keyFieldName) + {|rows|};
    } else {
      assert KeyedRows(all, keyFieldName) == KeyedRows(rows, keyFieldName);
    }
  }

  /** A well-formed collection stays well-formed: ids stay distinct and every written id is registered. */
  lemma ImportPreservesWellFormed(c: Collection, rows: seq<Row>, keyFieldName: string, mappings: seq<LocaleMapping>)
    requires WellFormed(c)
    ensures WellFormed(RowsImported(c, rows, keyFieldName, mappings).0)
  {
    var final := RowsImported(c, rows, keyFieldName, mappings).0;
    WellFormedEntriesPreserved(c, rows, keyFieldName, mappings);
    ImportKeepsExistingEntries(c, rows, keyFieldName, mappings);
    forall loc | loc in final.tables ensures final.tables[loc].Keys <= Ids(final.entries) {
      ImportedTablesOverlay(c, rows, keyFieldName, mappings, loc);
      forall id | id in final.tables[loc] ensures id in Ids(final.entries) {
        var w := Written(rows, keyFieldName, mappings, final.entries, loc);
        if id in w {
          WrittenIdsAreRowKeys(rows, keyFieldName, mappings, final.entries, loc, id);
        } else {
          assert id in c.tables[loc];
          assert id in Ids(c.entries);
          var e :| e in c.entries && e.id == id;
          assert e in final.entries;
        }
      }
    }
  }

  /** The entry part of well-formedness: ids distinct and below the next id. */
  lemma {:induction false} WellFormedEntriesPreserved(c: Collection, rows: seq<Row>, keyFieldName: string, mappings: seq<LocaleMapping>)
    requires IdsAllocated(c.entries, c.nextId)
    ensures IdsAllocated(RowsImported(c, rows, keyFieldName, mappings).0.entries, RowsImported(c, rows, keyFieldName, mappings).0.nextId)
    decreases |rows|
  {
    if |rows| != 0 {
      var c1 := RowImported(c, rows[0], keyFieldName, mappings).0;
      if RowKey(rows[0], keyFieldName).Some? {
        var key := RowKey(rows[0], keyFieldName).value;
        if FindByKey(c.entries, key).None? {
          assert c1.entries == c.entries + [KeyEntry(c.nextId, key)] && c1.nextId == c.nextId + 1;
        }
      }
      WellFormedEntriesPreserved(c1, rows[1..], keyFieldName, mappings);
      assert RowsImported(c, rows, keyFieldName, mappings).0 == RowsImported(c1, rows[1..], keyFieldName, mappings).0;
    }
  }

  /**
    Key names stay distinct: a row's key is looked up before it is added, so a run
    never adds a second entry for a name (two rows with the same new key add one).
  */
  lemma {:induction false} ImportKeepsKeysDistinct(c: Collection, rows: seq<Row>, keyFieldName: string, mappings: seq<LocaleMapping>)
    requires KeysDistinct(c.entries)
    ensures KeysDistinct(RowsImported(c, rows, keyFieldName, mappings).0.entries)
    decreases |rows|
  {
    if |rows| != 0 {
      var c1 := RowImported(c, rows[0], keyFieldName, mappings).0;
      RowsImportedStep(c, rows, keyFieldName, mappings);
      if RowKey(rows[0], keyFieldName).Some? {
        var key := RowKey(rows[0], keyFieldName).value;
        var (ck, e) := GetOrAddKey(c, key);
        assert c1.entries == ck.entries;
        if FindByKey(c.entries, key).None? {
          forall i, j | 0 <= i < j < |ck.entries| ensures ck.entries[i].key != ck.entries[j].key {
            if j == |c.entries| {
              assert c.entries[i] in c.entries;
            }
          }
        }
      }
      ImportKeepsKeysDistinct(c1, rows[1..], keyFieldName, mappings);
    }
  }

  /** A run over no rows, or over rows none of which has a key, leaves the collection as it was and counts nothing. */
  lemma {:induction false} KeylessRunChangesNothing(c: Collection, rows: seq<Row>, keyFieldName: string, mappings: seq<LocaleMapping>)
    requires forall i :: 0 <= i < |rows| ==> RowKey(rows[i], keyFieldName).None?
    ensures RowsImported(c, rows, keyFieldName, mappings) == (c, 0)
    decreases |rows|
  {
    if |rows| != 0 {
      assert forall i :: 0 <= i < |rows[1..]| ==> rows[1..][i] == rows[i + 1];
      KeylessRunChangesNothing(c, rows[1..], keyFieldName, mappings);
    }
  }
}
