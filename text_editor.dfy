/**
  The custom inspector of a localized text component: the table popup, the key
  button, and the writes they make to the component's serialized reference.
*/
module TextEditor {
  import opened Options
  import opened Sequences
  import opened LocalizationTables
  import opened KeyDropdown

  /** A string table collection as the inspector lists it: its name, name GUID and shared entries. */
  datatype CollectionInfo = CollectionInfo(name: string, nameGuid: string, entries: seq<KeyEntry>)

  /** The first item of the table popup, standing for "no table". */
  const NoneLabel: string := "None"

  /** The caption of the key button while no key is shown. */
  const SelectKeyLabel: string := "Select Key..."

  function CollectionNames(collections: seq<CollectionInfo>): (r: seq<string>)
    ensures |r| == |collections|
    ensures forall k :: 0 <= k < |r| ==> r[k] == collections[k].name
  {
    seq(|collections|, k requires 0 <= k < |collections| => collections[k].name)
  }

  /** `List.IndexOf`: the first position of `x` in `s`, or -1. */
  function IndexOf(s: seq<string>, x: string): (r: int)
    ensures -1 <= r < |s|
    ensures r == -1 <==> x !in s
    ensures r >= 0 ==> s[r] == x && forall k :: 0 <= k < r ==> s[k] != x
  {
    FirstIndex(s, y => y == x)
  }

  /**
    The popup index shown for the stored table name, in the list "None" followed by
    the collection names. It is 0 for an empty name, for a name no collection has,
    and for the name "None" itself (found at the head of the list); otherwise it is
    one past the position of the first collection with that name.
  */
  function PopupIndex(collections: seq<CollectionInfo>, currentTableName: string): (r: nat)
    ensures r <= |collections|
    ensures r == 0 <==>
      currentTableName == "" || currentTableName == NoneLabel
      || forall k :: 0 <= k < |collections| ==> collections[k].name != currentTableName
    ensures r > 0 ==>
      collections[r - 1].name == currentTableName
      && forall k :: 0 <= k < r - 1 ==> collections[k].name != currentTableName
  {
    var names := [NoneLabel] + CollectionNames(collections);
    if currentTableName == "" then 0
    else
      var i := IndexOf(names, currentTableName);
      assert currentTableName != NoneLabel && i != -1 ==> names[i] == collections[i - 1].name;
      assert i == -1 ==> forall k :: 0 <= k < |collections| ==> collections[k].name == names[k + 1];
      if i == -1 then 0 else i
  }

  /**
    Selecting a collection in the popup and drawing again shows that collection,
    provided collection names are distinct, non-empty and not "None"; clearing
    shows "None".
  */
  lemma SelectedTableIsShown(collections: seq<CollectionInfo>, k: nat)
    requires forall a, b :: 0 <= a < b < |collections| ==> collections[a].name != collections[b].name
    requires forall a :: 0 <= a < |collections| ==> collections[a].name != "" && collections[a].name != NoneLabel
    requires 1 <= k <= |collections|
    ensures PopupIndex(collections, collections[k - 1].name) == k
    ensures PopupIndex(collections, "") == 0
  {
  }

  /**
    `FirstOrDefault` on the collection list by name: the key button is drawn only
    when a table name is stored and some collection has it; it then uses the first.
  */
  function KeySelectionCollection(collections: seq<CollectionInfo>, currentTableName: string): (r: Option<CollectionInfo>)
    ensures r.Some? <==>
      currentTableName != "" && exists k :: 0 <= k < |collections| && collections[k].name == currentTableName
    ensures r.Some? ==> r.value in collections && r.value.name == currentTableName
    ensures r.Some? ==>
      exists k :: 0 <= k < |collections| && r.value == collections[k]
        && forall j :: 0 <= j < k ==> collections[j].name != currentTableName
  {
    if currentTableName == "" then None
    else
      var names := CollectionNames(collections);
      var k := IndexOf(names, currentTableName);
      assert forall j :: 0 <= j < |collections| ==> collections[j].name == names[j];
      if k == -1 then None else Some(collections[k])
  }

  /**
    The key shown for the stored reference: the name of the entry with the stored id
    when there is one, otherwise the stored key name.
  */
  function DisplayedKey(entries: seq<KeyEntry>, keyId: int, keyName: string): (r: string)
    ensures keyId in Ids(entries) ==> exists e :: e in entries && e.id == keyId && r == e.key
    ensures keyId !in Ids(entries) ==> r == keyName
  {
    match FindById(entries, keyId)
    case Some(entry) => entry.key
    case None => keyName
  }

  /** The caption of the key button: the shown key, or the prompt when it is empty. */
  function KeyButtonLabel(currentKey: string): (r: string)
    ensures r != ""
    ensures currentKey != "" ==> r == currentKey
    ensures currentKey == "" ==> r == SelectKeyLabel
  {
    if currentKey == "" then SelectKeyLabel else currentKey
  }

  /**
    `DrawKeySelection` without the drawing: None when no key button is drawn (no
    table name stored, or no collection by that name), else the button's caption.
  */
  function KeySelection(collections: seq<CollectionInfo>, currentTableName: string, keyId: int, keyName: string): (r: Option<string>)
    ensures r.Some? <==> KeySelectionCollection(collections, currentTableName).Some?
    ensures r.Some? ==> r.value != ""
    ensures r.Some? ==>
      r.value == KeyButtonLabel(DisplayedKey(KeySelectionCollection(collections, currentTableName).value.entries, keyId, keyName))
  {
    match KeySelectionCollection(collections, currentTableName)
    case None => None
    case Some(collection) => Some(KeyButtonLabel(DisplayedKey(collection.entries, keyId, keyName)))
  }

  /**
    The serialized reference of the component: table collection name and its GUID,
    key name and key id. The inspector's write-backs update these fields in place.
  */
  class LocalizedStringProperty {
    var tableCollectionName: string
    var tableCollectionNameGuid: string
    var keyName: string
    var keyId: int

    constructor (tableName: string, tableGuid: string, key: string, id: int)
      ensures tableCollectionName == tableName && tableCollectionNameGuid == tableGuid
      ensures keyName == key && keyId == id
    {
      tableCollectionName := tableName;
      tableCollectionNameGuid := tableGuid;
      keyName := key;
      keyId := id;
    }

    /**
      The write-back of the table popup, given the index the user left selected.
      Nothing is written when it is the index shown; index 0 clears name and GUID;
      index k > 0 stores the name and GUID of the k-th collection. The key is kept.
    */
    method DrawTableSelection(collections: seq<CollectionInfo>, newIndex: int)
      requires 0 <= newIndex <= |collections|
      modifies this`tableCollectionName, this`tableCollectionNameGuid
      ensures newIndex == PopupIndex(collections, old(tableCollectionName)) ==> unchanged(this)
      ensures newIndex != PopupIndex(collections, old(tableCollectionName)) && newIndex == 0 ==>
        tableCollectionName == "" && tableCollectionNameGuid == ""
      ensures newIndex != PopupIndex(collections, old(tableCollectionName)) && newIndex > 0 ==>
        tableCollectionName == collections[newIndex - 1].name
        && tableCollectionNameGuid == collections[newIndex - 1].nameGuid
    {
      var currentIndex := PopupIndex(collections, tableCollectionName);
      if newIndex != currentIndex {
        if newIndex == 0 {
          tableCollectionName := "";
          tableCollectionNameGuid := "";
        } else {
          var selected := collections[newIndex - 1];
          tableCollectionName := selected.name;
          tableCollectionNameGuid := selected.nameGuid;
        }
      }
    }

    /**
      `ItemSelected` and the `onKeySelected` callback: the item's name and its
      (32-bit) id become the stored key name and key id; the table is kept.
    */
    method ItemSelected(item: DropdownItem)
      modifies this`keyName, this`keyId
      ensures keyName == item.name && keyId == item.id
    {
      keyName := item.name;
      keyId := item.id;
    }
  }

  /**
    Choosing an entry in the dropdown shows that entry's key afterwards, when its id
    fits in an `int` and ids are distinct.
  */
  lemma SelectedKeyIsDisplayed(entries: seq<KeyEntry>, e: KeyEntry)
    requires IdsDistinct(entries) && e in entries && InInt32(e.id)
    ensures DisplayedKey(entries, ToItem(e).id, ToItem(e).name) == e.key
  {
    var i :| 0 <= i < |entries| && entries[i] == e;
    FindByIdUnique(entries, i);
  }

  /**
    When the truncated id of the chosen entry matches no entry, the stored name
    takes over and the chosen key is still shown.
  */
  lemma TruncatedIdFallsBackToName(entries: seq<KeyEntry>, e: KeyEntry)
    requires ToInt32(e.id) !in Ids(entries)
    ensures DisplayedKey(entries, ToItem(e).id, ToItem(e).name) == e.key
  {
  }

  /**
    The `(int)` cast can make a selection show another key: an entry whose id is
    2^32 + 1 is stored with id 1, which is the id of a different entry.
  */
  lemma TruncatedIdCanShowAnotherKey()
    ensures var entries := [KeyEntry(1, "a"), KeyEntry(0x1_0000_0001, "b")];
      IdsAllocated(entries, 0x1_0000_0002)
      && DisplayedKey(entries, ToItem(entries[1]).id, ToItem(entries[1]).name) == "a"
  {
    var entries := [KeyEntry(1, "a"), KeyEntry(0x1_0000_0001, "b")];
    assert ToInt32(0x1_0000_0001) == 1;
    assert FindById(entries, 1) == Some(entries[0]);
  }
}
