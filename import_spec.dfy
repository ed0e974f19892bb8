/**
  What one import run does, as functions over the value view of a collection. The
  importer's methods are proved against these; the properties of the import are
  lemmas about them (module ImportProperties).
*/
module ImportSpec {
  import opened Options
  import opened LocalizationTables

  /**
    One element of the source list, seen through reflection: its public instance
    fields by name, each holding the `ToString()` text of the field's value, or None
    when the value is null. A name that is not a key has no such field.
  */
  type Row = map<string, Option<string>>

  /** One (source column -> locale code) pair of the import configuration. */
  datatype LocaleMapping = LocaleMapping(sourceColumn: string, localeCode: string)

  /** The value of a public field of the source asset: a list of rows, or anything that is not a list (null included). */
  datatype FieldValue = ListValue(rows: seq<Row>) | NotAList

  /** The source asset (the data loader object): its public instance fields by name. */
  datatype SourceAsset = SourceAsset(fields: map<string, FieldValue>)

  /** How an import run ended: one of the early returns, or a completed run with its counter. */
  datatype ImportOutcome =
    | NothingSelected           // source asset or target collection is null
    | ListFieldMissing          // the source type has no field named as the list field
    | ListFieldNotAList         // the field's value is not a list
    | Imported(updatedCount: nat)

  /** `GetType().GetField(name)` followed by `GetValue`: absent field, or its (possibly null) text. */
  function GetField(row: Row, name: string): (r: Option<Option<string>>)
    ensures r.Some? <==> name in row
    ensures r.Some? ==> r.value == row[name]
  {
    if name in row then Some(row[name]) else None
  }

  /**
    The key a row is imported under: None (the row is skipped) when the key field is
    missing, null or empty.
  */
  function RowKey(row: Row, keyFieldName: string): (r: Option<string>)
    ensures r.Some? <==> keyFieldName in row && row[keyFieldName].Some? && row[keyFieldName].value != ""
    ensures r.Some? ==> r.value == row[keyFieldName].value
  {
    match GetField(row, keyFieldName)
    case None => None
    case Some(text) => if text.None? || text.value == "" then None else Some(text.value)
  }

  /**
    The shared entry for `key`: the existing one when the lookup by name succeeds,
    otherwise a new entry under the allocator's next id.
  */
  function GetOrAddKey(c: Collection, key: string): (r: (Collection, KeyEntry))
    ensures r.1.key == key
    ensures r.0.tables == c.tables
    ensures FindByKey(c.entries, key).Some? ==> r.0 == c && r.1 == FindByKey(c.entries, key).value
    ensures FindByKey(c.entries, key).None? ==>
      r.0.entries == c.entries + [r.1] && r.1.id == c.nextId && r.0.nextId == c.nextId + 1
  {
    match FindByKey(c.entries, key)
    case Some(e) => (c, e)
    case None =>
      var e := KeyEntry(c.nextId, key);
      (Collection(c.entries + [e], c.nextId + 1, c.tables), e)
  }

  /**
    `UpdateLocaleValue` for one mapping: the column's text (empty when null) is
    upserted under `id` into the mapping's locale table, when the column exists and
    the locale has a table; otherwise nothing changes.
  */
  function LocaleValueUpdated(tables: map<string, StringTable>, row: Row, m: LocaleMapping, id: int): (r: map<string, StringTable>)
    ensures r.Keys == tables.Keys
    ensures forall loc | loc in r && loc != m.localeCode :: r[loc] == tables[loc]
    ensures m.sourceColumn !in row || m.localeCode !in tables ==> r == tables
    ensures m.sourceColumn in row && m.localeCode in tables ==>
      r[m.localeCode] == tables[m.localeCode][id := row[m.sourceColumn].GetOr("")]
  {
    match GetField(row, m.sourceColumn)
    case None => tables
    case Some(text) =>
      if m.localeCode !in tables then tables
      else tables[m.localeCode := tables[m.localeCode][id := text.GetOr("")]]
  }

  /** The mappings of one row, applied in list order; no locale table is created or removed. */
  function MappingsApplied(tables: map<string, StringTable>, row: Row, mappings: seq<LocaleMapping>, id: int): (r: map<string, StringTable>)
    ensures r.Keys == tables.Keys
    decreases |mappings|
  {
    if |mappings| == 0 then tables
    else MappingsApplied(LocaleValueUpdated(tables, row, mappings[0], id), row, mappings[1..], id)
  }

  /** One pass of the row loop: skipped rows change nothing and are not counted. */
  function RowImported(c: Collection, row: Row, keyFieldName: string, mappings: seq<LocaleMapping>): (r: (Collection, bool))
    ensures r.1 <==> RowKey(row, keyFieldName).Some?
    ensures !r.1 ==> r.0 == c
    ensures r.0.tables.Keys == c.tables.Keys
  {
    match RowKey(row, keyFieldName)
    case None => (c, false)
    case Some(key) =>
      var (c1, entry) := GetOrAddKey(c, key);
      (c1.(tables := MappingsApplied(c1.tables, row, mappings, entry.id)), true)
  }

  /**
    The row loop: the collection after all rows, and `updatedCount`, which counts at
    most one per row. No locale table is created or removed.
  */
  function RowsImported(c: Collection, rows: seq<Row>, keyFieldName: string, mappings: seq<LocaleMapping>): (r: (Collection, nat))
    ensures r.1 <= |rows|
    ensures r.0.tables.Keys == c.tables.Keys
    decreases |rows|
  {
    if |rows| == 0 then (c, 0)
    else
      var (c1, counted) := RowImported(c, rows[0], keyFieldName, mappings);
      var (c2, n) := RowsImported(c1, rows[1..], keyFieldName, mappings);
      (c2, if counted then n + 1 else n)
  }

  /**
    `ImportData` once source and target are set: the list field is looked up and
    checked before any row is read; both failures leave the collection as it was.
  */
  function ImportResult(c: Collection, source: SourceAsset, listFieldName: string, keyFieldName: string, mappings: seq<LocaleMapping>): (r: (ImportOutcome, Collection))
    ensures r.0 == ListFieldMissing <==> listFieldName !in source.fields
    ensures r.0 == ListFieldNotAList <==> listFieldName in source.fields && source.fields[listFieldName].NotAList?
    ensures !r.0.Imported? ==> r.1 == c
    ensures r.0 != NothingSelected
  {
    if listFieldName !in source.fields then (ListFieldMissing, c)
    else match source.fields[listFieldName]
      case NotAList => (ListFieldNotAList, c)
      case ListValue(rows) =>
        var (c1, n) := RowsImported(c, rows, keyFieldName, mappings);
        (Imported(n), c1)
  }
}
