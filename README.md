# Simple Localize importer and localized-text inspector, in Dafny

This project models the editor side of a small Unity localization add-on:

- **The importer window** (`SimpleLocalizationImporter`). It reads a list of rows from
  a data asset. For each row with a key, it looks up or adds the key in the target string
  table collection's shared key table. Then, for every (source column -> locale code)
  mapping, it upserts the row's text into that locale's string table. It counts the rows it
  handled.
- **The inspector of a localized text component** (`SimpleLocalizedTextEditor`). It
  covers four parts:
  - the table-collection popup: which index it shows, and what a new selection writes back;
  - the key button: which collection it uses, and which key it shows (by id first, then by
    the stored name);
  - the key dropdown `LocalizationKeyDropdown.BuildRoot`: the keys sorted, empty keys
    dropped, and ids cast to `int`;
  - the selection callback, which writes the chosen key name and id back.

Modules:

| module | file | contents |
|---|---|---|
| `Options` | options.dfy | `Option` with `GetOr` |
| `Sequences` | sequences.dfy | the first position satisfying a test, the search behind `List.IndexOf` and the `GetEntry` lookups |
| `LocalizationTables` | tables.dfy | shared key entries, the value view `Collection`, lookups by key and by id, and the class `StringTableCollection` with `AddKey`, `AddEntry` and `GetTable` |
| `ImportSpec` | import_spec.dfy | the import as pure functions: field access, row key, get-or-add, one mapping, one row, all rows, early returns |
| `ImportProperties` | import_properties.dfy | lemmas about the import: the final tables against the reference definition `Written`, key registration, idempotence, counting, well-formedness |
| `Importer` | importer.dfy | the class `SimpleLocalizationImporter`; `ImportData` loops over the rows and `ApplyMappings` over one row's mappings, proved against `ImportSpec` |
| `KeyDropdown` | key_dropdown.dfy | the `(int)` cast, ordinal key order, `OrderBy` as a stable insertion sort, the filter, and `BuildRoot` |
| `TextEditor` | text_editor.dfy | the popup index, key selection and display, and the class `LocalizedStringProperty` with the write-backs |

How the source's data is represented:

- A data row is a map from public field name to its text.
  - `None` is a field that is present but null.
  - A name that is not in the map is a field the row's type does not have.
- A locale with no string table has no entry in the collection's table map.
- `Written` (in `ImportProperties`) is the reference definition of the import's effect on one locale table. Under each key's id it holds the value written by the last row with that key that writes to this locale; within that row, the last mapping for the locale whose column the row has wins. A later row with the same key that writes nothing there leaves the earlier value.
- The main lemma, `ImportedTablesOverlay`, says that the final table is the old table overridden by `Written`.
- Idempotence, unmapped locales and the ids written are all derived from `Written`.

Each key entry has a 64-bit id, but the dropdown item stores it as `(int)entry.Id`, an unchecked cast.

- When the id fits in an `int`, choosing the entry shows its own key again (`SelectedKeyIsDisplayed`).
- When the truncated id matches no entry, the stored name is shown, which is again the chosen key (`TruncatedIdFallsBackToName`).
- When the truncated id is the id of another entry, that other entry's key is shown (`TruncatedIdCanShowAnotherKey`).

What the code does in cases a reader might expect otherwise:

- `updatedCount` counts every row that has a non-empty key, whether or not any mapping wrote a value for it.
- A mapping whose locale has no table is skipped silently. The warning for it is commented out at `Editor/SimpleLocalizationImporter.cs:178`.
- A row without the key field, or with a null or empty key, is skipped. Skipped rows are not counted, and nothing reports them.
- The only early returns are:
  - nothing selected;
  - a missing list field;
  - a list field that is not a list.
- A collection named "None" (or with an empty name) can be chosen in the popup, but on the next draw the popup shows "None" again: the stored name is found at the head of the list, where "None" was inserted (`PopupIndex`).
- To show the current key, the inspector does not look the key up by its stored name and does not repair the stored id. When the id lookup fails, it only shows the stored name. The stored id changes only when a key is chosen in the dropdown.

## Model

| member | source | states |
|---|---|---|
| LocalizationTables.FindByKey | Editor/SimpleLocalizationImporter.cs:135 | the lookup by key name fails exactly when no entry has that name; a hit is an entry of the table with that name |
| LocalizationTables.FindById | Editor/SimpleLocalizedTextEditor.cs:98 | the lookup by id fails exactly when the id is not in the table; a hit is an entry carrying that id |
| LocalizationTables.FindByKeyAppend | Editor/SimpleLocalizationImporter.cs:135-139 | a key that is found keeps resolving to the same entry after further keys are added |
| LocalizationTables.FindByKeyUnique | Editor/SimpleLocalizationImporter.cs:135 | with distinct names, the lookup by an entry's name returns that very entry |
| LocalizationTables.FindByIdUnique | Editor/SimpleLocalizedTextEditor.cs:98 | with distinct ids, the lookup by an entry's id returns that very entry |
| LocalizationTables.StringTableCollection.GetTable | Editor/SimpleLocalizationImporter.cs:174-175 | a table is returned exactly for the locales the collection has, and it is that locale's table |
| LocalizationTables.StringTableCollection.AddKey | Editor/SimpleLocalizationImporter.cs:138 | appends one entry with the given key and an id not used before; ids stay distinct; tables untouched |
| LocalizationTables.StringTableCollection.AddEntry | Editor/SimpleLocalizationImporter.cs:183 | inserts or overwrites the value under the id in that locale's table only; the key table is untouched |
| ImportSpec.GetField | Editor/SimpleLocalizationImporter.cs:168-171 | the field is found exactly when the row's type has it, and then it yields its (possibly null) text |
| ImportSpec.RowKey | Editor/SimpleLocalizationImporter.cs:128-132 | a row has a key exactly when the key field exists, is not null and is not empty; the key is that text |
| ImportSpec.GetOrAddKey | Editor/SimpleLocalizationImporter.cs:135-139 | an existing key is reused with the collection unchanged; a new key is appended with the next id; tables are never touched |
| ImportSpec.LocaleValueUpdated | Editor/SimpleLocalizationImporter.cs:165-184 | no locale is created or removed; a missing column or missing table changes nothing; otherwise only that locale's table gets the text (empty for null) under the id |
| ImportSpec.MappingsApplied | Editor/SimpleLocalizationImporter.cs:142-145 | the mapping loop of one row never creates or removes a locale table; what it writes is stated by `MappingsLastWins` |
| ImportSpec.RowImported | Editor/SimpleLocalizationImporter.cs:128-147 | a row is counted exactly when it has a key; a row without one changes nothing; no locale table is created or removed |
| ImportSpec.RowsImported | Editor/SimpleLocalizationImporter.cs:123-148 | the row loop counts at most one per row and never creates or removes a locale table; the tables it leaves are stated by `ImportedTablesOverlay` and the counter by `ImportCountsKeyedRows` |
| ImportSpec.ImportResult | Editor/SimpleLocalizationImporter.cs:104-148 | the run stops early exactly when the list field is missing or not a list, and then the collection is unchanged |
| ImportProperties.MappingsLastWins | Editor/SimpleLocalizationImporter.cs:142-145 | after a row's mappings, a locale's table is the old table overridden by the value of the last mapping for that locale whose column the row has |
| ImportProperties.GetOrAddKeyFinds | Editor/SimpleLocalizationImporter.cs:135-139 | after get-or-add, the lookup by that key yields the returned entry |
| ImportProperties.ImportKeepsExistingEntries | Editor/SimpleLocalizationImporter.cs:135-139 | an import only appends to the shared key table and never moves the id allocator back |
| ImportProperties.ImportKeepsKeyIds | Editor/SimpleLocalizationImporter.cs:135-139 | a key present before the import resolves to the same entry, with the same id, after it |
| ImportProperties.ImportRegistersEveryKey | Editor/SimpleLocalizationImporter.cs:128-139 | after the import, every row with a key finds that key in the shared key table |
| ImportProperties.RegisteredRunKeepsEntries | Editor/SimpleLocalizationImporter.cs:135-139 | when every row's key is already registered, the import adds no entry and allocates no id |
| ImportProperties.ImportedTablesOverlay | Editor/SimpleLocalizationImporter.cs:125-148 | each locale table after the import is the old table overridden by `Written`: per key id, the last value the rows write there |
| ImportProperties.UnmappedLocaleUnchanged | Editor/SimpleLocalizationImporter.cs:142-145 | a locale no mapping names keeps its table exactly |
| ImportProperties.NothingWrittenToUnmappedLocale | Editor/SimpleLocalizationImporter.cs:142-145 | the reference definition writes nothing to a locale no mapping names |
| ImportProperties.NoValueForUnmappedLocale | Editor/SimpleLocalizationImporter.cs:142-145 | a row yields no value for a locale no mapping names |
| ImportProperties.WrittenIdsAreRowKeys | Editor/SimpleLocalizationImporter.cs:128-145 | every id written is the id of the key of some row with a key |
| ImportProperties.ImportIdempotent | Editor/SimpleLocalizationImporter.cs:125-148 | importing the same rows again leaves the entries, the allocator and every table as the first import left them |
| ImportProperties.ImportCountsKeyedRows | Editor/SimpleLocalizationImporter.cs:123-147 | the counter equals the number of rows that have a non-empty key |
| ImportProperties.ImportPreservesWellFormed | Editor/SimpleLocalizationImporter.cs:125-148 | ids stay distinct and below the allocator, and every table holds only registered ids |
| ImportProperties.WellFormedEntriesPreserved | Editor/SimpleLocalizationImporter.cs:135-139 | ids stay distinct and below the allocator across the whole import |
| ImportProperties.ImportKeepsKeysDistinct | Editor/SimpleLocalizationImporter.cs:135-139 | key names stay distinct: a run never adds a second entry for a name, so two rows with the same new key add one entry |
| ImportProperties.KeylessRunChangesNothing | Editor/SimpleLocalizationImporter.cs:128-132 | when no row has a key, the import changes nothing and counts zero |
| Importer.SimpleLocalizationImporter.constructor | Editor/SimpleLocalizationImporter.cs:16-30 | a new window has nothing selected, list field "Data", key field "Key" and no mappings |
| Importer.SimpleLocalizationImporter.OnEnable | Editor/SimpleLocalizationImporter.cs:38-47 | an empty mapping list becomes KR->ko, EN->en, JP->ja; a configured list is kept |
| Importer.SimpleLocalizationImporter.ImportData | Editor/SimpleLocalizationImporter.cs:102-148 | with no source or no target nothing happens; otherwise the outcome and the new collection are those of `ImportResult`, and the collection stays well-formed |
| Importer.SimpleLocalizationImporter.GetOrAddEntry | Editor/SimpleLocalizationImporter.cs:135-139 | the entry and the new collection are those of `GetOrAddKey`: the existing entry, or one added by `AddKey` |
| Importer.SimpleLocalizationImporter.ApplyMappings | Editor/SimpleLocalizationImporter.cs:142-145 | the loop over the mappings leaves the collection with its tables as `MappingsApplied` says and its key table untouched |
| Importer.SimpleLocalizationImporter.UpdateLocaleValue | Editor/SimpleLocalizationImporter.cs:165-184 | the collection's new state is the old one with its tables updated as `LocaleValueUpdated` says; the key table is untouched |
| KeyDropdown.ToInt32 | Editor/SimpleLocalizedTextEditor.cs:148 | the cast yields an `int` congruent to the id modulo 2^32, and it is the identity exactly on ids that fit in an `int` |
| KeyDropdown.ItemsOf | Editor/SimpleLocalizedTextEditor.cs:148 | one item per entry, in order, each with the entry's key as name and its id cast to `int` |
| KeyDropdown.KeyLeTotal | Editor/SimpleLocalizedTextEditor.cs:142 | any two key names are ordered one way or the other |
| KeyDropdown.KeyLeTransitive | Editor/SimpleLocalizedTextEditor.cs:142 | the key order is transitive |
| KeyDropdown.KeyLeAntisymmetric | Editor/SimpleLocalizedTextEditor.cs:142 | two names that each sort before or with the other are equal, so the key order is a total order |
| KeyDropdown.InsertByKey | Editor/SimpleLocalizedTextEditor.cs:142 | inserting into a sorted list keeps it sorted and adds exactly that entry |
| KeyDropdown.OrderByKey | Editor/SimpleLocalizedTextEditor.cs:142 | the entries sorted by key: ascending, and a permutation of the input |
| KeyDropdown.NonEmptyKeys | Editor/SimpleLocalizedTextEditor.cs:146 | the filter never lengthens the list; which entries it keeps is stated by `NonEmptyKeysCount` |
| KeyDropdown.NonEmptyKeysCount | Editor/SimpleLocalizedTextEditor.cs:146 | the filter keeps every entry with a non-empty key as often as it occurs, and drops every other |
| KeyDropdown.NonEmptyKeysSorted | Editor/SimpleLocalizedTextEditor.cs:142-146 | filtering a sorted list leaves it sorted |
| KeyDropdown.DropdownListsNonEmptyKeysInOrder | Editor/SimpleLocalizedTextEditor.cs:142-149 | the listed entries are exactly the entries with a non-empty key, in ascending key order |
| KeyDropdown.BuildRoot | Editor/SimpleLocalizedTextEditor.cs:137-153 | the items are those of the non-empty keys in ascending order, with ids cast to `int`, one per such entry, none with an empty name |
| TextEditor.IndexOf | Editor/SimpleLocalizedTextEditor.cs:59 | -1 exactly when the name is absent, otherwise the position of its first occurrence |
| TextEditor.PopupIndex | Editor/SimpleLocalizedTextEditor.cs:50-61 | 0 exactly when the stored name is empty, is "None", or is no collection's name; otherwise one past the first collection with that name |
| TextEditor.SelectedTableIsShown | Editor/SimpleLocalizedTextEditor.cs:54-76 | with distinct names, none empty or "None", a collection written back by the popup is the one the popup shows next, and a cleared name shows "None" |
| TextEditor.KeySelectionCollection | Editor/SimpleLocalizedTextEditor.cs:82-92 | a collection is used exactly when a name is stored and some collection has it; it is the first collection with that name |
| TextEditor.DisplayedKey | Editor/SimpleLocalizedTextEditor.cs:94-104 | the key of the entry with the stored id when there is one, else the stored key name |
| TextEditor.KeyButtonLabel | Editor/SimpleLocalizedTextEditor.cs:109 | never empty: the key when there is one, else "Select Key..." |
| TextEditor.KeySelection | Editor/SimpleLocalizedTextEditor.cs:80-109 | a key button is drawn exactly when a collection is used; its caption is the label of the key shown for the stored id and name in that collection, never empty |
| TextEditor.LocalizedStringProperty.DrawTableSelection | Editor/SimpleLocalizedTextEditor.cs:63-76 | no write when the selection is the one shown; index 0 clears name and GUID; index k stores the k-th collection's name and GUID |
| TextEditor.LocalizedStringProperty.ItemSelected | Editor/SimpleLocalizedTextEditor.cs:113-116 | the chosen item's name and id become the stored key name and id |
| TextEditor.SelectedKeyIsDisplayed | Editor/SimpleLocalizedTextEditor.cs:94-104 | with distinct ids, choosing an entry whose id fits in an `int` shows that entry's key afterwards |
| TextEditor.TruncatedIdFallsBackToName | Editor/SimpleLocalizedTextEditor.cs:98-104 | when the truncated id matches no entry, the chosen key is still shown, through the stored name |
| TextEditor.TruncatedIdCanShowAnotherKey | Editor/SimpleLocalizedTextEditor.cs:148 | an entry with id 2^32+1 is stored as id 1, and another entry's key is then shown |

## Left out

- `Runtime/SimpleLocalizedText.cs` (the component that shows the text at run time) is not part of this model.
- The window's GUI is not modelled: drawing, the object pickers and the mapping-list editor. Only the settings and their defaults are.
- Reflection is modelled only by its effect. A row is a map from field name to the field's text. `ToString` of a non-string field value is taken as already given.
- `Undo.RecordObject`, `EditorUtility.SetDirty`, `Debug.Log`/`LogError`, `ApplyModifiedProperties` and `SendMessage("OnValidate")` are left out. They are editor bookkeeping and messages, and they do not affect the data.
- Null elements in the source list, null mapping strings and a null `SharedData` are not modelled. In the source they raise exceptions rather than being handled.
- `StringTableCollection.AddKey`: Unity's key id generator is foreign code. The model hands out the next value of a counter, so ids are increasing. The lemmas rely only on the new id being unused.
- Key ids are unbounded integers. The 64-bit `long` range of stored ids is not modelled, only the cast to `int` in the dropdown.
- KeyDropdown.OrderByKey: compares key names by character code, whereas `OrderBy` on strings uses the current culture's collation. The contract states sortedness and permutation, not stability.
- KeyDropdown.BuildRoot: the dropdown's tree of items, its search box and its state object are left out. The model returns the flat list of items the root gets.
- Asynchronous loading of tables, refresh notifications and an import report do not occur in this code, so they are not modelled.
