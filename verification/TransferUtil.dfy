/** The six loops of transfer_util.cc, over mutable containers.  The functions of Containers say
    what the C++ containers do on insertion; the methods here are proved to compute them.  */
module TransferUtil {
  import opened CefStrings
  import opened Containers

  class CefString {
    var text: Str

    constructor ()
      ensures text == []
    {
      text := [];
    }

    constructor Copy(other: CefString)
      ensures text == other.text
    {
      text := other.text;
    }
  }

  // ---------- containers behind the C interface ----------

  class CStringList {
    var items: seq<Str>

    constructor ()
      ensures items == []
    {
      items := [];
    }

    // cef_string_list_value: overwrites `value` if the index is valid.
    method Value(index: nat, value: CefString) returns (ok: bool)
      modifies value
      ensures ok <==> index < |items|
      ensures value.text == if ok then items[index] else old(value.text)
    {
      ok := index < |items|;
      if ok { value.text := items[index]; }
    }

    method Append(value: CefString)
      modifies this
      ensures items == old(items) + [value.text]
    {
      items := items + [value.text];
    }
  }

  // cef_string_map_t and cef_string_multimap_t, which differ in type only.
  class CEntries {
    var items: seq<Entry>

    constructor ()
      ensures items == []
    {
      items := [];
    }

    method Key(index: nat, key: CefString) returns (ok: bool)
      modifies key
      ensures ok <==> index < |items|
      ensures key.text == if ok then items[index].key else old(key.text)
    {
      ok := index < |items|;
      if ok { key.text := items[index].key; }
    }

    method Value(index: nat, value: CefString) returns (ok: bool)
      modifies value
      ensures ok <==> index < |items|
      ensures value.text == if ok then items[index].value else old(value.text)
    {
      ok := index < |items|;
      if ok { value.text := items[index].value; }
    }

    method Append(e: Entry)
      modifies this
      ensures items == old(items) + [e]
    {
      items := items + [e];
    }
  }

  // ---------- containers of the C++ standard library ----------

  class StringVector {
    var elems: seq<CefString>

    constructor ()
      ensures elems == []
    {
      elems := [];
    }

    function Contents(): seq<Str>
      reads this, elems
    {
      seq(|elems|, i requires 0 <= i < |elems| reads this, elems => elems[i].text)
    }

    // The vector stores a copy of its own.
    method PushBack(value: CefString)
      modifies this
      ensures |elems| == old(|elems|) + 1 && elems[..old(|elems|)] == old(elems)
      ensures fresh(elems[old(|elems|)])
      ensures Contents() == old(Contents()) + [value.text]
    {
      var c := new CefString.Copy(value);
      elems := elems + [c];
    }
  }

  class StringMap {
    var entries: seq<Entry>

    constructor ()
      ensures entries == []
    {
      entries := [];
    }

    method Insert(key: CefString, value: CefString)
      modifies this
      ensures entries == MapInsert(old(entries), Entry(key.text, value.text))
    {
      var n := 0;
      while n < |entries| && Less(entries[n].key, key.text)
        invariant n <= |entries| && LowerBound(entries, key.text) == n + LowerBound(entries[n..], key.text)
      {
        n := n + 1;
      }
      if n == |entries| || Less(key.text, entries[n].key) {
        entries := entries[..n] + [Entry(key.text, value.text)] + entries[n..];
      }
    }
  }

  class StringMultimap {
    var entries: seq<Entry>

    constructor ()
      ensures entries == []
    {
      entries := [];
    }

    method Insert(key: CefString, value: CefString)
      modifies this
      ensures entries == MultiInsert(old(entries), Entry(key.text, value.text))
    {
      var n := 0;
      while n < |entries| && !Less(key.text, entries[n].key)
        invariant n <= |entries| && UpperBound(entries, key.text) == n + UpperBound(entries[n..], key.text)
      {
        n := n + 1;
      }
      entries := entries[..n] + [Entry(key.text, value.text)] + entries[n..];
    }
  }

  // ---------- the transfers ----------

  // Although one string object is overwritten on every iteration, what was stored stays.
  method ListIn(fromList: CStringList, toList: StringVector)
    modifies toList
    ensures toList.Contents() == old(toList.Contents()) + fromList.items
    ensures old(toList.elems) <= toList.elems
    ensures forall i :: |old(toList.elems)| <= i < |toList.elems| ==> fresh(toList.elems[i])
  {
    var size := |fromList.items|;
    var value := new CefString();
    for i := 0 to size
      invariant fromList.items == old(fromList.items)
      invariant fresh(value) && value !in toList.elems
      invariant old(toList.elems) <= toList.elems
      invariant forall j :: |old(toList.elems)| <= j < |toList.elems| ==> fresh(toList.elems[j])
      invariant toList.Contents() == old(toList.Contents()) + fromList.items[..i]
    {
      label before:
      var _ := fromList.Value(i, value);
      assert toList.Contents() == old@before(toList.Contents());
      toList.PushBack(value);
      assert fromList.items[..i + 1] == fromList.items[..i] + [fromList.items[i]];
    }
    assert fromList.items[..size] == fromList.items;
  }

  method ListOut(fromList: StringVector, toList: CStringList)
    modifies toList
    ensures toList.items == old(toList.items) + fromList.Contents()
  {
    var size := |fromList.elems|;
    for i := 0 to size
      invariant fromList.elems == old(fromList.elems) && fromList.Contents() == old(fromList.Contents())
      invariant toList.items == old(toList.items) + fromList.Contents()[..i]
    {
      toList.Append(fromList.elems[i]);
    }
  }

  method MapIn(fromMap: CEntries, toMap: StringMap)
    modifies toMap
    ensures toMap.entries == MapInsertAll(old(toMap.entries), fromMap.items)
  {
    var size := |fromMap.items|;
    var key := new CefString();
    var value := new CefString();
    for i := 0 to size
      invariant key != value && fresh(key) && fresh(value)
      invariant fromMap.items == old(fromMap.items)
      invariant MapInsertAll(toMap.entries, fromMap.items[i..]) == MapInsertAll(old(toMap.entries), fromMap.items)
    {
      var _ := fromMap.Key(i, key);
      var _ := fromMap.Value(i, value);
      toMap.Insert(key, value);
    }
  }

  method MapOut(fromMap: StringMap, toMap: CEntries)
    modifies toMap
    ensures toMap.items == old(toMap.items) + fromMap.entries
  {
    var it := 0;
    while it != |fromMap.entries|
      invariant it <= |fromMap.entries|
      invariant toMap.items == old(toMap.items) + fromMap.entries[..it]
    {
      toMap.Append(fromMap.entries[it]);
      it := it + 1;
    }
  }

  method MultimapIn(fromMap: CEntries, toMap: StringMultimap)
    modifies toMap
    ensures toMap.entries == MultiInsertAll(old(toMap.entries), fromMap.items)
  {
    var size := |fromMap.items|;
    var key := new CefString();
    var value := new CefString();
    for i := 0 to size
      invariant key != value && fresh(key) && fresh(value)
      invariant fromMap.items == old(fromMap.items)
      invariant MultiInsertAll(toMap.entries, fromMap.items[i..]) == MultiInsertAll(old(toMap.entries), fromMap.items)
    {
      var _ := fromMap.Key(i, key);
      var _ := fromMap.Value(i, value);
      toMap.Insert(key, value);
    }
  }

  method MultimapOut(fromMap: StringMultimap, toMap: CEntries)
    modifies toMap
    ensures toMap.items == old(toMap.items) + fromMap.entries
  {
    var it := 0;
    while it != |fromMap.entries|
      invariant it <= |fromMap.entries|
      invariant toMap.items == old(toMap.items) + fromMap.entries[..it]
    {
      toMap.Append(fromMap.entries[it]);
      it := it + 1;
    }
  }

  // ---------- round trips through the C interface ----------

  method ListRoundTrip(original: StringVector) returns (copy: StringVector)
    ensures fresh(copy) && copy.Contents() == original.Contents()
  {
    var c := new CStringList();
    ListOut(original, c);
    copy := new StringVector();
    ListIn(c, copy);
  }

  method MapCopy(original: StringMap) returns (copy: StringMap)
    requires StrictlySorted(original.entries)
    ensures fresh(copy) && copy.entries == original.entries
  {
    var c := new CEntries();
    MapOut(original, c);
    copy := new StringMap();
    MapIn(c, copy);
    assert c.items == original.entries;
    MapRoundTrip(original.entries);
  }

  method MultimapCopy(original: StringMultimap) returns (copy: StringMultimap)
    requires Sorted(original.entries)
    ensures fresh(copy) && copy.entries == original.entries
  {
    var c := new CEntries();
    MultimapOut(original, c);
    copy := new StringMultimap();
    MultimapIn(c, copy);
    assert c.items == original.entries;
    MultimapRoundTrip(original.entries);
  }
}
