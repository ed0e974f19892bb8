/**
  The string table collection the importer writes into and the inspector reads from:
  the shared key table (key name <-> numeric id) and one string table per locale.
*/
module LocalizationTables {
  import opened Options
  import opened Sequences

  /** One entry of the shared key table: the numeric id and the key name. */
  datatype KeyEntry = KeyEntry(id: int, key: string)

  /** A per-locale string table: key id -> localized text. */
  type StringTable = map<int, string>

  /**
    Value view of a collection: the shared entries in insertion order, the id the
    allocator hands out next, and the string tables by locale code. A locale code
    that is not a key of `tables` has no table.
  */
  datatype Collection = Collection(entries: seq<KeyEntry>, nextId: int, tables: map<string, StringTable>)

  /** The ids present in the shared key table. */
  function Ids(entries: seq<KeyEntry>): set<int> {
    set e | e in entries :: e.id
  }

  /**
    The well-formedness a collection keeps: ids are distinct and below the next id to
    allocate, and every id with a value in some locale table is a registered key id.
  */
  predicate WellFormed(c: Collection) {
    && IdsAllocated(c.entries, c.nextId)
    && (forall loc | loc in c.tables :: c.tables[loc].Keys <= Ids(c.entries))
  }

  /** Entry ids are distinct and all below the id the allocator hands out next. */
  predicate IdsAllocated(entries: seq<KeyEntry>, nextId: int) {
    && (forall i :: 0 <= i < |entries| ==> entries[i].id < nextId)
    && IdsDistinct(entries)
  }

  /** Entry ids are distinct: the shared table maps each id to one entry. */
  predicate IdsDistinct(entries: seq<KeyEntry>) {
    forall i, j :: 0 <= i < j < |entries| ==> entries[i].id != entries[j].id
  }

  /** Entry names are distinct: the shared table maps each key name to one entry. */
  predicate KeysDistinct(entries: seq<KeyEntry>) {
    forall i, j :: 0 <= i < j < |entries| ==> entries[i].key != entries[j].key
  }

  /** The test the lookup by name applies to an entry. */
  function NamedKey(key: string): KeyEntry -> bool {
    (e: KeyEntry) => e.key == key
  }

  /** The test the lookup by id applies to an entry. */
  function HasId(id: int): KeyEntry -> bool {
    (e: KeyEntry) => e.id == id
  }

  /** `SharedTableData.GetEntry(string)`: the first entry with this key name, if any. */
  function FindByKey(entries: seq<KeyEntry>, key: string): (r: Option<KeyEntry>)
    ensures r.None? <==> forall e :: e in entries ==> e.key != key
    ensures r.Some? ==> r.value in entries && r.value.key == key
  {
    var i := FirstIndex(entries, NamedKey(key));
    if i == -1 then None else Some(entries[i])
  }

  /** `SharedTableData.GetEntry(long)`: the first entry with this id, if any. */
  function FindById(entries: seq<KeyEntry>, id: int): (r: Option<KeyEntry>)
    ensures r.None? <==> id !in Ids(entries)
    ensures r.Some? ==> r.value in entries && r.value.id == id
  {
    var i := FirstIndex(entries, HasId(id));
    if i == -1 then None else Some(entries[i])
  }

  /** A lookup by name that succeeds keeps its answer when entries are appended. */
  lemma {:induction false} FindByKeyAppend(entries: seq<KeyEntry>, more: seq<KeyEntry>, key: string)
    requires FindByKey(entries, key).Some?
    ensures FindByKey(entries + more, key) == FindByKey(entries, key)
  {
    var i := FirstIndex(entries, NamedKey(key));
    var all := entries + more;
    assert all[i] == entries[i];
    assert forall j :: 0 <= j < i ==> all[j] == entries[j];
  }

  /** With distinct names the lookup by an entry's name finds exactly that entry. */
  lemma FindByKeyUnique(entries: seq<KeyEntry>, i: int)
    requires KeysDistinct(entries) && 0 <= i < |entries|
    ensures FindByKey(entries, entries[i].key) == Some(entries[i])
  {
    var k := FirstIndex(entries, NamedKey(entries[i].key));
    assert k != -1;
  }

  /** With distinct ids the lookup by an entry's id finds exactly that entry. */
  lemma FindByIdUnique(entries: seq<KeyEntry>, i: int)
    requires IdsDistinct(entries) && 0 <= i < |entries|
    ensures FindById(entries, entries[i].id) == Some(entries[i])
  {
    var k := FirstIndex(entries, HasId(entries[i].id));
    assert k != -1;
  }

  /**
    A `StringTableCollection` together with its `SharedData`: the entries list and the
    string tables, updated in place by `AddKey` and `StringTable.AddEntry`.
  */
  class StringTableCollection {
    var entries: seq<KeyEntry>
    var nextId: int
    var tables: map<string, StringTable>

    function State(): Collection
      reads this
    {
      Collection(entries, nextId, tables)
    }

    predicate Valid()
      reads this
    {
      WellFormed(State())
    }

    /** A collection with no keys and the given (possibly empty) locale tables. */
    constructor (localeTables: map<string, StringTable>)
      requires forall loc | loc in localeTables :: localeTables[loc] == map[]
      ensures Valid()
      ensures State() == Collection([], 0, localeTables)
    {
      entries := [];
      nextId := 0;
      tables := localeTables;
    }

    /** `GetTable(localeCode) as StringTable`: the locale's table, or None when it has none. */
    function GetTable(localeCode: string): (r: Option<StringTable>)
      reads this
      ensures r.Some? <==> localeCode in tables
      ensures r.Some? ==> r.value == tables[localeCode]
    {
      if localeCode in tables then Some(tables[localeCode]) else None
    }

    /**
      `SharedData.AddKey(key)`: appends an entry for `key` under an id that no entry
      has; the tables are untouched.
    */
    method AddKey(key: string) returns (entry: KeyEntry)
      requires Valid()
      modifies this
      ensures Valid()
      ensures entry.key == key && entry.id !in Ids(old(entries))
      ensures entries == old(entries) + [entry]
      ensures nextId == old(nextId) + 1 && entry.id == old(nextId)
      ensures tables == old(tables)
    {
      entry := KeyEntry(nextId, key);
      assert Ids(entries + [entry]) == Ids(entries) + {entry.id};
      entries := entries + [entry];
      nextId := nextId + 1;
    }

    /**
      `StringTable.AddEntry(id, value)` on the table of `localeCode`: an upsert of one
      value in one table; every other table and every other id keeps its value.
    */
    method AddEntry(localeCode: string, id: int, value: string)
      requires Valid() && localeCode in tables && id in Ids(entries)
      modifies this
      ensures Valid()
      ensures tables == old(tables)[localeCode := old(tables)[localeCode][id := value]]
      ensures entries == old(entries) && nextId == old(nextId)
      ensures GetTable(localeCode) == Some(old(tables)[localeCode][id := value])
      ensures tables[localeCode][id] == value
    {
      tables := tables[localeCode := tables[localeCode][id := value]];
    }
  }
}
