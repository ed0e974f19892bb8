/**
  The importer window: its settings and the import itself, which walks the source
  list and updates the target collection in place.
*/
module Importer {
  import opened Options
  import opened LocalizationTables
  import opened ImportSpec

  /** The mappings a fresh window starts with: KR -> ko, EN -> en, JP -> ja. */
  const DefaultMappings: seq<LocaleMapping> :=
    [LocaleMapping("KR", "ko"), LocaleMapping("EN", "en"), LocaleMapping("JP", "ja")]

  class SimpleLocalizationImporter {
    var sourceAsset: Option<SourceAsset>
    var targetCollection: StringTableCollection?
    var listFieldName: string
    var keyFieldName: string
    var mappings: seq<LocaleMapping>

    /** A new window: nothing selected, list field "Data", key field "Key", no mappings yet. */
    constructor ()
      ensures sourceAsset == None && targetCollection == null
      ensures listFieldName == "Data" && keyFieldName == "Key" && mappings == []
    {
      sourceAsset := None;
      targetCollection := null;
      listFieldName := "Data";
      keyFieldName := "Key";
      mappings := [];
    }

    /** Fills in the default mappings when there are none; a configured list is kept. */
    method OnEnable()
      modifies this`mappings
      ensures old(mappings) == [] ==> mappings == DefaultMappings
      ensures old(mappings) != [] ==> mappings == old(mappings)
    {
      if |mappings| == 0 {
        mappings := DefaultMappings;
      }
    }

    /**
      The import. With no source or no target it returns at once; a missing or
      non-list list field is reported before any row is read. Otherwise every row is
      imported in order and the new state of the collection and the counter are those
      of `ImportResult`; the collection stays well-formed.
    */
    method ImportData() returns (outcome: ImportOutcome)
      requires targetCollection != null ==> targetCollection.Valid()
      modifies targetCollection
      ensures targetCollection != null ==> targetCollection.Valid()
      ensures sourceAsset.None? || targetCollection == null ==> outcome == NothingSelected
      ensures sourceAsset.None? && targetCollection != null ==> unchanged(targetCollection)
      ensures sourceAsset.Some? && targetCollection != null ==>
        (outcome, targetCollection.State())
          == ImportResult(old(targetCollection.State()), sourceAsset.value, listFieldName, keyFieldName, mappings)
    {
      if sourceAsset.None? || targetCollection == null {
        return NothingSelected;
      }
      var source := sourceAsset.value;
      if listFieldName !in source.fields {
        return ListFieldMissing;
      }
      var listValue := source.fields[listFieldName];
      if listValue.NotAList? {
        return ListFieldNotAList;
      }
      var rows := listValue.rows;

      ghost var result := RowsImported(targetCollection.State(), rows, keyFieldName, mappings);
      var updatedCount := 0;
      for i := 0 to |rows|
        invariant targetCollection.Valid()
        invariant RowsImported(targetCollection.State(), rows[i..], keyFieldName, mappings).0 == result.0
        invariant updatedCount + RowsImported(targetCollection.State(), rows[i..], keyFieldName, mappings).1 == result.1
      {
        var item := rows[i];
        ghost var before := targetCollection.State();
        assert rows[i..][0] == item && rows[i..][1..] == rows[i + 1..];

        var keyField := GetField(item, keyFieldName);
        if keyField.None? {
          continue;
        }
        var key := keyField.value;
        if key.None? || key.value == "" {
          continue;
        }

        assert RowKey(item, keyFieldName) == Some(key.value);
        var entry := GetOrAddEntry(key.value);
        ApplyMappings(item, entry.id);

        updatedCount := updatedCount + 1;
      }
      assert rows[|rows|..] == [];
      outcome := Imported(updatedCount);
    }

    /**
      The shared entry for a row's key: the one the lookup by name finds, otherwise
      a new one from `AddKey`. The string tables do not change.
    */
    method GetOrAddEntry(key: string) returns (entry: KeyEntry)
      requires targetCollection != null && targetCollection.Valid()
      modifies targetCollection
      ensures targetCollection.Valid()
      ensures entry in targetCollection.entries
      ensures (targetCollection.State(), entry) == GetOrAddKey(old(targetCollection.State()), key)
    {
      var found := FindByKey(targetCollection.entries, key);
      if found.None? {
        entry := targetCollection.AddKey(key);
      } else {
        entry := found.value;
      }
    }

    /**
      The mapping loop of one row: `UpdateLocaleValue` for each mapping, in list
      order, under the row's entry id. Only the string tables change.
    */
    method ApplyMappings(item: Row, entryId: int)
      requires targetCollection != null && targetCollection.Valid()
      requires entryId in Ids(targetCollection.entries)
      modifies targetCollection
      ensures targetCollection.Valid()
      ensures targetCollection.State()
           == old(targetCollection.State()).(tables := MappingsApplied(old(targetCollection.tables), item, mappings, entryId))
    {
      ghost var start := targetCollection.State();
      for j := 0 to |mappings|
        invariant targetCollection.Valid()
        invariant targetCollection.entries == start.entries && targetCollection.nextId == start.nextId
        invariant MappingsApplied(targetCollection.tables, item, mappings[j..], entryId)
               == MappingsApplied(start.tables, item, mappings, entryId)
      {
        var mapping := mappings[j];
        assert mappings[j..][0] == mapping && mappings[j..][1..] == mappings[j + 1..];
        UpdateLocaleValue(item, mapping.sourceColumn, mapping.localeCode, entryId);
      }
      assert mappings[|mappings|..] == [];
    }

    /**
      One mapping for one row: reads the column, finds the locale's table and upserts
      the text (empty when null) under `entryId`. A missing column or a missing table
      changes nothing, and no table is ever created.
    */
    method UpdateLocaleValue(itemData: Row, columnName: string, localeCode: string, entryId: int)
      requires targetCollection != null && targetCollection.Valid()
      requires entryId in Ids(targetCollection.entries)
      modifies targetCollection
      ensures targetCollection.Valid()
      ensures targetCollection.State()
           == old(targetCollection.State()).(tables := LocaleValueUpdated(old(targetCollection.tables), itemData, LocaleMapping(columnName, localeCode), entryId))
    {
      var contentField := GetField(itemData, columnName);
      if contentField.None? {
        return;
      }
      var contentValue := contentField.value;

      var table := targetCollection.GetTable(localeCode);
      if table.None? {
        return;
      }

      targetCollection.AddEntry(localeCode, entryId, contentValue.GetOr(""));
    }
  }
}
