/**
  The key dropdown of the inspector: the list of items it offers (`BuildRoot`) and
  the `(int)` cast its items put on the 64-bit key ids.
*/
module KeyDropdown {
  import opened LocalizationTables

  /** One item of the dropdown: the key name it shows and the 32-bit id it carries. */
  datatype DropdownItem = DropdownItem(name: string, id: int)

  /** The range of a C# `int`. */
  predicate InInt32(x: int) {
    -0x8000_0000 <= x < 0x8000_0000
  }

  /**
    C#'s unchecked `(int)` conversion of a 64-bit key id: the low 32 bits read as a
    signed value. It is the identity exactly on ids that fit in an `int`.
  */
  function ToInt32(x: int): (r: int)
    ensures InInt32(r)
    ensures (x - r) % 0x1_0000_0000 == 0
    ensures r == x <==> InInt32(x)
  {
    (x + 0x8000_0000) % 0x1_0000_0000 - 0x8000_0000
  }

  /** The item built for a shared entry: its key name and its id cast to `int`. */
  function ToItem(e: KeyEntry): DropdownItem {
    DropdownItem(e.key, ToInt32(e.id))
  }

  function ItemsOf(entries: seq<KeyEntry>): (r: seq<DropdownItem>)
    ensures |r| == |entries|
    ensures forall i :: 0 <= i < |r| ==> r[i] == ToItem(entries[i])
  {
    seq(|entries|, i requires 0 <= i < |entries| => ToItem(entries[i]))
  }

  // ---------------------------------------------------------------------------
  // Ordering of key names

  /** Ordinal (character code) order on key names: `a` sorts before or with `b`. */
  predicate KeyLe(a: string, b: string) {
    |a| == 0 || (|b| != 0 && (a[0] < b[0] || (a[0] == b[0] && KeyLe(a[1..], b[1..]))))
  }

  lemma {:induction false} KeyLeTotal(a: string, b: string)
    ensures KeyLe(a, b) || KeyLe(b, a)
  {
    if |a| != 0 && |b| != 0 && a[0] == b[0] {
      KeyLeTotal(a[1..], b[1..]);
    }
  }

  lemma {:induction false} KeyLeTransitive(a: string, b: string, c: string)
    requires KeyLe(a, b) && KeyLe(b, c)
    ensures KeyLe(a, c)
  {
    if |a| != 0 && |b| != 0 && |c| != 0 && a[0] == b[0] && b[0] == c[0] {
      KeyLeTransitive(a[1..], b[1..], c[1..]);
    }
  }

  /** Two names each sorting before or with the other are equal: the order is a total order. */
  lemma {:induction false} KeyLeAntisymmetric(a: string, b: string)
    requires KeyLe(a, b) && KeyLe(b, a)
    ensures a == b
  {
    if |a| != 0 {
      KeyLeAntisymmetric(a[1..], b[1..]);
      assert a == [a[0]] + a[1..] && b == [b[0]] + b[1..];
    }
  }

  /** Entries in ascending key order. */
  predicate SortedByKey(s: seq<KeyEntry>) {
    forall i, j :: 0 <= i < j < |s| ==> KeyLe(s[i].key, s[j].key)
  }

  /** Inserts `e` before the first entry whose key does not sort below it. */
  function InsertByKey(e: KeyEntry, s: seq<KeyEntry>): (r: seq<KeyEntry>)
    requires SortedByKey(s)
    ensures SortedByKey(r)
    ensures multiset(r) == multiset(s) + multiset{e}
    decreases |s|
  {
    if |s| == 0 then [e]
    else if KeyLe(e.key, s[0].key) then
      SortedPrependBelowHead(e, s);
      [e] + s
    else
      var rest := InsertByKey(e, s[1..]);
      KeyLeTotal(e.key, s[0].key);
      SortedPrependHeadToInsertion(s, e, rest);
      assert s == [s[0]] + s[1..];
      [s[0]] + rest
  }

  /** An entry sorting before or with the head of a sorted list can go in front of it. */
  lemma SortedPrependBelowHead(e: KeyEntry, s: seq<KeyEntry>)
    requires SortedByKey(s) && |s| != 0 && KeyLe(e.key, s[0].key)
    ensures SortedByKey([e] + s)
  {
    forall j | 0 <= j < |s| ensures KeyLe(e.key, s[j].key) {
      if j != 0 { KeyLeTransitive(e.key, s[0].key, s[j].key); }
    }
    forall i, j | 0 <= i < j < |[e] + s| ensures KeyLe(([e] + s)[i].key, ([e] + s)[j].key) {
      if i != 0 { assert ([e] + s)[i] == s[i - 1]; }
      assert ([e] + s)[j] == s[j - 1];
    }
  }

  /**
    The head of a sorted list can go back in front of its tail with `e` inserted,
    when `e` sorts after or with that head.
  */
  lemma SortedPrependHeadToInsertion(s: seq<KeyEntry>, e: KeyEntry, rest: seq<KeyEntry>)
    requires SortedByKey(s) && |s| != 0 && KeyLe(s[0].key, e.key)
    requires SortedByKey(rest) && multiset(rest) == multiset(s[1..]) + multiset{e}
    ensures SortedByKey([s[0]] + rest)
  {
    forall j | 0 <= j < |rest| ensures KeyLe(s[0].key, rest[j].key) {
      assert rest[j] in multiset(rest);
      if rest[j] != e {
        assert rest[j] in multiset(s[1..]);
        var k :| 1 <= k < |s| && s[k] == rest[j];
      }
    }
    forall i, j | 0 <= i < j < |[s[0]] + rest| ensures KeyLe(([s[0]] + rest)[i].key, ([s[0]] + rest)[j].key) {
      if i != 0 { assert ([s[0]] + rest)[i] == rest[i - 1]; }
      assert ([s[0]] + rest)[j] == rest[j - 1];
    }
  }

  /** `OrderBy(e => e.Key)`: a stable sort of the entries by key name. */
  function OrderByKey(entries: seq<KeyEntry>): (r: seq<KeyEntry>)
    ensures SortedByKey(r)
    ensures multiset(r) == multiset(entries)
    decreases |entries|
  {
    if |entries| == 0 then []
    else
      assert entries == [entries[0]] + entries[1..];
      InsertByKey(entries[0], OrderByKey(entries[1..]))
  }

  /** The entries with a non-empty key, in their order. */
  function NonEmptyKeys(entries: seq<KeyEntry>): (r: seq<KeyEntry>)
    ensures |r| <= |entries|
    decreases |entries|
  {
    if |entries| == 0 then []
    else (if entries[0].key != "" then [entries[0]] else []) + NonEmptyKeys(entries[1..])
  }

  lemma {:induction false} NonEmptyKeysCount(entries: seq<KeyEntry>, x: KeyEntry)
    ensures multiset(NonEmptyKeys(entries))[x] == if x.key != "" then multiset(entries)[x] else 0
    decreases |entries|
  {
    if |entries| != 0 {
      NonEmptyKeysCount(entries[1..], x);
      assert entries == [entries[0]] + entries[1..];
    }
  }

  /** Filtering keeps a permutation a permutation. */
  lemma NonEmptyKeysPermutation(a: seq<KeyEntry>, b: seq<KeyEntry>)
    requires multiset(a) == multiset(b)
    ensures multiset(NonEmptyKeys(a)) == multiset(NonEmptyKeys(b))
  {
    forall x ensures multiset(NonEmptyKeys(a))[x] == multiset(NonEmptyKeys(b))[x] {
      NonEmptyKeysCount(a, x);
      NonEmptyKeysCount(b, x);
    }
  }

  lemma {:induction false} NonEmptyKeysSorted(entries: seq<KeyEntry>)
    requires SortedByKey(entries)
    ensures SortedByKey(NonEmptyKeys(entries))
    decreases |entries|
  {
    if |entries| != 0 {
      var rest := NonEmptyKeys(entries[1..]);
      NonEmptyKeysSorted(entries[1..]);
      forall j | 0 <= j < |rest| ensures KeyLe(entries[0].key, rest[j].key) {
        NonEmptyKeysCount(entries[1..], rest[j]);
        assert rest[j] in multiset(rest);
        var k :| 0 <= k < |entries[1..]| && entries[1..][k] == rest[j];
        assert entries[k + 1] == rest[j];
      }
    }
  }

  lemma {:induction false} NonEmptyKeysSnoc(entries: seq<KeyEntry>, e: KeyEntry)
    ensures NonEmptyKeys(entries + [e]) == NonEmptyKeys(entries) + (if e.key != "" then [e] else [])
    decreases |entries|
  {
    if |entries| == 0 {
      assert [e][1..] == [];
    } else {
      var head := if entries[0].key != "" then [entries[0]] else [];
      var tail := if e.key != "" then [e] else [];
      assert (entries + [e])[0] == entries[0];
      assert (entries + [e])[1..] == entries[1..] + [e];
      NonEmptyKeysSnoc(entries[1..], e);
      assert NonEmptyKeys(entries + [e]) == head + (NonEmptyKeys(entries[1..]) + tail);
      assert head + (NonEmptyKeys(entries[1..]) + tail) == (head + NonEmptyKeys(entries[1..])) + tail;
    }
  }

  /**
    The keys the dropdown lists are exactly the entries with a non-empty key (as a
    multiset: each as often as in the shared table), in ascending key order.
  */
  lemma DropdownListsNonEmptyKeysInOrder(entries: seq<KeyEntry>)
    ensures multiset(NonEmptyKeys(OrderByKey(entries))) == multiset(NonEmptyKeys(entries))
    ensures SortedByKey(NonEmptyKeys(OrderByKey(entries)))
    ensures forall e | e in NonEmptyKeys(OrderByKey(entries)) :: e.key != ""
  {
    var shown := NonEmptyKeys(OrderByKey(entries));
    NonEmptyKeysPermutation(OrderByKey(entries), entries);
    NonEmptyKeysSorted(OrderByKey(entries));
    forall e | e in shown ensures e.key != "" {
      NonEmptyKeysCount(OrderByKey(entries), e);
    }
  }

  lemma ItemsOfSnoc(entries: seq<KeyEntry>, e: KeyEntry)
    ensures ItemsOf(entries + [e]) == ItemsOf(entries) + [ToItem(e)]
  {
  }

  /** What the listing lemma says, read off the items built from the listed entries. */
  lemma DropdownItemsListing(entries: seq<KeyEntry>)
    ensures |ItemsOf(NonEmptyKeys(OrderByKey(entries)))| == |NonEmptyKeys(entries)|
    ensures forall i | 0 <= i < |ItemsOf(NonEmptyKeys(OrderByKey(entries)))| ::
      ItemsOf(NonEmptyKeys(OrderByKey(entries)))[i].name != ""
    ensures forall i, j | 0 <= i < j < |ItemsOf(NonEmptyKeys(OrderByKey(entries)))| ::
      KeyLe(ItemsOf(NonEmptyKeys(OrderByKey(entries)))[i].name, ItemsOf(NonEmptyKeys(OrderByKey(entries)))[j].name)
  {
    var shown := NonEmptyKeys(OrderByKey(entries));
    DropdownListsNonEmptyKeysInOrder(entries);
    assert |multiset(shown)| == |multiset(NonEmptyKeys(entries))|;
    forall i | 0 <= i < |shown| ensures shown[i].key != "" {
      assert shown[i] in shown;
    }
  }

  /**
    `BuildRoot`: walks the entries sorted by key and adds an item for each one with a
    non-empty key. The items are those of the non-empty keys, in ascending key order,
    as many as there are such entries.
  */
  method BuildRoot(entries: seq<KeyEntry>) returns (items: seq<DropdownItem>)
    ensures items == ItemsOf(NonEmptyKeys(OrderByKey(entries)))
    ensures |items| == |NonEmptyKeys(entries)|
    ensures forall i :: 0 <= i < |items| ==> items[i].name != ""
    ensures forall i, j :: 0 <= i < j < |items| ==> KeyLe(items[i].name, items[j].name)
  {
    var sorted := OrderByKey(entries);
    items := [];
    for i := 0 to |sorted|
      invariant items == ItemsOf(NonEmptyKeys(sorted[..i]))
    {
      var entry := sorted[i];
      NonEmptyKeysSnoc(sorted[..i], entry);
      assert sorted[..i + 1] == sorted[..i] + [entry];
      if entry.key != "" {
        ItemsOfSnoc(NonEmptyKeys(sorted[..i]), entry);
        items := items + [ToItem(entry)];
      } else {
        assert NonEmptyKeys(sorted[..i] + [entry]) == NonEmptyKeys(sorted[..i]);
      }
    }
    assert sorted[..|sorted|] == sorted;
    DropdownItemsListing(entries);
  }
}
