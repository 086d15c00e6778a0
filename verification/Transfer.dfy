/** CefString as a key: UTF-16 code units, ordered as CefStringBase::compare orders them. */
module CefStrings {

  type CodeUnit = n: int | 0 <= n < 0x1_0000

  type Str = seq<CodeUnit>

  // An empty string precedes every other; nonempty strings are compared unit by unit.
  predicate Less(a: Str, b: Str) {
    b != [] && (a == [] || a[0] < b[0] || (a[0] == b[0] && Less(a[1..], b[1..])))
  }

  // The order of strcmp: at the first difference the smaller code unit decides, and a string
  // precedes its extensions.
  ghost predicate FirstDifference(a: Str, b: Str, i: nat) {
    && i <= |a| && i <= |b| && a[..i] == b[..i]
    && ((i == |a| && i < |b|) || (i < |a| && i < |b| && a[i] < b[i]))
  }

  lemma {:induction false} LessIsLexicographic(a: Str, b: Str)
    ensures Less(a, b) <==> exists i: nat :: FirstDifference(a, b, i)
  {
    if a == [] || b == [] || a[0] != b[0] {
      if Less(a, b) {
        assert FirstDifference(a, b, 0);
      }
    } else {
      LessIsLexicographic(a[1..], b[1..]);
      if i: nat :| FirstDifference(a[1..], b[1..], i) {
        assert a[..i + 1] == [a[0]] + a[1..][..i] && b[..i + 1] == [b[0]] + b[1..][..i];
        assert FirstDifference(a, b, i + 1);
      }
      if i: nat :| FirstDifference(a, b, i) {
        assert i > 0 && a[1..][..i - 1] == a[..i][1..] && b[1..][..i - 1] == b[..i][1..];
        assert FirstDifference(a[1..], b[1..], i - 1);
      }
    }
  }

  lemma {:induction false} LessIsTransitive(a: Str, b: Str, c: Str)
    requires Less(a, b) && Less(b, c)
    ensures Less(a, c)
  {
    if a != [] && a[0] == b[0] && b[0] == c[0] {
      LessIsTransitive(a[1..], b[1..], c[1..]);
    }
  }

  // Exactly one of a < b, a == b, b < a.
  lemma {:induction false} LessIsTotal(a: Str, b: Str)
    ensures !(Less(a, b) && Less(b, a))
    ensures (!Less(a, b) && !Less(b, a)) <==> a == b
  {
    if a != [] && b != [] && a[0] == b[0] {
      LessIsTotal(a[1..], b[1..]);
      assert a == [a[0]] + a[1..] && b == [b[0]] + b[1..];
    }
  }
}

/** What the containers of transfer_util.h hold, and what their insert operations do to it:
    a map is a sequence of entries in increasing key order, a multimap one in nondecreasing order.  */
module Containers {
  import opened CefStrings

  datatype Entry = Entry(key: Str, value: Str)

  ghost predicate Sorted(a: seq<Entry>) {
    forall i, j :: 0 <= i < j < |a| ==> !Less(a[j].key, a[i].key)
  }

  ghost predicate StrictlySorted(a: seq<Entry>) {
    forall i, j :: 0 <= i < j < |a| ==> Less(a[i].key, a[j].key)
  }

  // The values stored under k, in order.
  function Values(a: seq<Entry>, k: Str): seq<Str> {
    if a == [] then []
    else (if a[0].key == k then [a[0].value] else []) + Values(a[1..], k)
  }

  lemma {:induction false} ValuesAppend(a: seq<Entry>, b: seq<Entry>, k: Str)
    ensures Values(a + b, k) == Values(a, k) + Values(b, k)
  {
    if a == [] {
      assert a + b == b;
    } else {
      assert (a + b)[1..] == a[1..] + b;
      ValuesAppend(a[1..], b, k);
    }
  }

  lemma {:induction false} NoValues(a: seq<Entry>, k: Str)
    ensures Values(a, k) == [] <==> forall e :: e in a ==> e.key != k
  {
    if a != [] {
      NoValues(a[1..], k);
      assert forall e :: e in a <==> e == a[0] || e in a[1..];
    }
  }

  // ---------- std::multimap::insert ----------

  // Number of leading entries whose key is at most k: the end of the equal range of k.
  function UpperBound(a: seq<Entry>, k: Str): (n: nat)
    ensures n <= |a|
    ensures n < |a| ==> Less(k, a[n].key)
    ensures forall i :: 0 <= i < n ==> !Less(k, a[i].key)
  {
    if a == [] || Less(k, a[0].key) then 0 else 1 + UpperBound(a[1..], k)
  }

  function MultiInsert(a: seq<Entry>, e: Entry): seq<Entry> {
    var n := UpperBound(a, e.key);
    a[..n] + [e] + a[n..]
  }

  lemma {:induction false} MultiInsertKeepsSorted(a: seq<Entry>, e: Entry)
    requires Sorted(a)
    ensures Sorted(MultiInsert(a, e))
  {
    var n := UpperBound(a, e.key);
    var b := MultiInsert(a, e);
    forall i, j | 0 <= i < j < |b| ensures !Less(b[j].key, b[i].key) {
      LessIsTotal(b[i].key, b[j].key);
      if i == n {
        if Less(a[j - 1].key, e.key) {
          LessIsTransitive(a[j - 1].key, e.key, a[n].key);
        }
      }
    }
  }

  lemma {:induction false} SuffixAbove(a: seq<Entry>, n: nat, k: Str)
    requires Sorted(a) && n <= |a| && (n < |a| ==> Less(k, a[n].key))
    ensures Values(a[n..], k) == []
  {
    forall e | e in a[n..] ensures e.key != k {
      var i :| n <= i < |a| && a[i] == e;
      LessIsTotal(k, a[n].key);
    }
    NoValues(a[n..], k);
  }

  // The new value goes to the end of the equal range of its key; no other key is affected.
  lemma {:induction false} MultiInsertAppendsValue(a: seq<Entry>, e: Entry, k: Str)
    requires Sorted(a)
    ensures Values(MultiInsert(a, e), k) == Values(a, k) + if e.key == k then [e.value] else []
  {
    var n := UpperBound(a, e.key);
    ValuesOfSplice(a, n, e, k);
    if e.key == k {
      SuffixAbove(a, n, k);
    }
  }

  // Result of inserting the entries of src one after the other.
  function MultiInsertAll(a: seq<Entry>, src: seq<Entry>): seq<Entry>
    decreases |src|
  {
    if src == [] then a else MultiInsertAll(MultiInsert(a, src[0]), src[1..])
  }

  // The transfer into a multimap lists under each key the old values followed by the transferred
  // ones in their order, and keeps the entries sorted.
  lemma {:induction false} TransferMultimap(a: seq<Entry>, src: seq<Entry>, k: Str)
    requires Sorted(a)
    ensures Sorted(MultiInsertAll(a, src))
    ensures Values(MultiInsertAll(a, src), k) == Values(a, k) + Values(src, k)
    decreases |src|
  {
    if src != [] {
      MultiInsertKeepsSorted(a, src[0]);
      MultiInsertAppendsValue(a, src[0], k);
      TransferMultimap(MultiInsert(a, src[0]), src[1..], k);
    }
  }

  // It loses no entry and invents none.
  lemma {:induction false} TransferIsPermutation(a: seq<Entry>, src: seq<Entry>)
    ensures multiset(MultiInsertAll(a, src)) == multiset(a) + multiset(src)
    decreases |src|
  {
    if src != [] {
      InsertAddsOne(a, src[0]);
      hide MultiInsert;
      assert src == [src[0]] + src[1..];
      TransferIsPermutation(MultiInsert(a, src[0]), src[1..]);
    }
  }

  lemma InsertAddsOne(a: seq<Entry>, e: Entry)
    ensures multiset(MultiInsert(a, e)) == multiset(a) + multiset{e}
  {
    var n := UpperBound(a, e.key);
    assert a == a[..n] + a[n..];
  }

  // Sortedness and the order of values under each key leave no freedom: the transfer into an
  // empty multimap is the stable sort by key, and nothing else satisfies its specification.
  lemma {:induction false} StableSortIsUnique(a: seq<Entry>, b: seq<Entry>)
    requires Sorted(a) && Sorted(b) && forall k :: Values(a, k) == Values(b, k)
    ensures a == b
    decreases |a|
  {
    if a == [] || b == [] {
      SameValuesBothEmpty(a, b);
    } else {
      SameFirstKey(a, b);
      SameFirstKey(b, a);
      LessIsTotal(a[0].key, b[0].key);
      assert Values(a, a[0].key)[0] == a[0].value && Values(b, a[0].key)[0] == b[0].value;
      forall k ensures Values(a[1..], k) == Values(b[1..], k) {
        var first := if a[0].key == k then [a[0].value] else [];
        assert Values(a, k) == first + Values(a[1..], k) && Values(b, k) == first + Values(b[1..], k);
        assert Values(a[1..], k) == Values(a, k)[|first|..];
      }
      StableSortIsUnique(a[1..], b[1..]);
      assert a == [a[0]] + a[1..] && b == [b[0]] + b[1..];
    }
  }

  lemma SameValuesBothEmpty(a: seq<Entry>, b: seq<Entry>)
    requires forall k :: Values(a, k) == Values(b, k)
    requires a == [] || b == []
    ensures a == b
  {
    if a != [] {
      NoValues(a, a[0].key);
    } else if b != [] {
      NoValues(b, b[0].key);
    }
  }

  lemma SameFirstKey(a: seq<Entry>, b: seq<Entry>)
    requires Sorted(b) && a != [] && b != [] && forall k :: Values(a, k) == Values(b, k)
    ensures !Less(a[0].key, b[0].key)
  {
    NoValues(b, a[0].key);
    var e :| e in b && e.key == a[0].key;
    LessIsTotal(e.key, b[0].key);
  }

  // Out to an empty C multimap and back into an empty C++ one is the identity.
  lemma {:induction false} MultimapRoundTrip(a: seq<Entry>)
    requires Sorted(a)
    ensures MultiInsertAll([], a) == a
  {
    forall k ensures Values(MultiInsertAll([], a), k) == Values(a, k) {
      TransferMultimap([], a, k);
    }
    TransferMultimap([], a, []);
    StableSortIsUnique(MultiInsertAll([], a), a);
  }

  // Two sources one after the other are one source.
  lemma {:induction false} MultiInsertAllAppend(a: seq<Entry>, s: seq<Entry>, t: seq<Entry>)
    ensures MultiInsertAll(MultiInsertAll(a, s), t) == MultiInsertAll(a, s + t)
    decreases |s|
  {
    if s == [] {
      assert s + t == t;
    } else {
      assert (s + t)[1..] == s[1..] + t;
      MultiInsertAllAppend(MultiInsert(a, s[0]), s[1..], t);
    }
  }

  // ---------- std::map::insert ----------

  // Number of leading entries whose key is less than k.
  function LowerBound(a: seq<Entry>, k: Str): (n: nat)
    ensures n <= |a|
    ensures n < |a| ==> !Less(a[n].key, k)
    ensures forall i :: 0 <= i < n ==> Less(a[i].key, k)
  {
    if a == [] || !Less(a[0].key, k) then 0 else 1 + LowerBound(a[1..], k)
  }

  // An entry whose key is present is not inserted.
  function MapInsert(a: seq<Entry>, e: Entry): seq<Entry> {
    var n := LowerBound(a, e.key);
    if n < |a| && !Less(e.key, a[n].key) then a else a[..n] + [e] + a[n..]
  }

  function MapInsertAll(a: seq<Entry>, src: seq<Entry>): seq<Entry>
    decreases |src|
  {
    if src == [] then a else MapInsertAll(MapInsert(a, src[0]), src[1..])
  }

  // The first value under k, in a sequence of at most one value.
  function First(vs: seq<Str>): seq<Str> {
    if vs == [] then [] else vs[..1]
  }

  lemma StrictIsSorted(a: seq<Entry>)
    requires StrictlySorted(a)
    ensures Sorted(a)
  {
    forall i, j | 0 <= i < j < |a| ensures !Less(a[j].key, a[i].key) { LessIsTotal(a[i].key, a[j].key); }
  }

  lemma {:induction false} StrictHasOneValue(a: seq<Entry>, k: Str)
    requires StrictlySorted(a)
    ensures |Values(a, k)| <= 1
  {
    if a != [] {
      StrictHasOneValue(a[1..], k);
      if a[0].key == k {
        forall e | e in a[1..] ensures e.key != k { LessIsTotal(k, e.key); }
        NoValues(a[1..], k);
      }
    }
  }

  lemma {:induction false} MapInsertKeepsSorted(a: seq<Entry>, e: Entry)
    requires StrictlySorted(a)
    ensures StrictlySorted(MapInsert(a, e))
  {
    var n := LowerBound(a, e.key);
    var b := MapInsert(a, e);
    if b != a {
      forall i, j | 0 <= i < j < |b| ensures Less(b[i].key, b[j].key) {
        if i == n && j > n + 1 {
          LessIsTransitive(e.key, a[n].key, a[j - 1].key);
        } else if j == n + 1 && i == n {
          LessIsTotal(e.key, a[n].key);
        }
      }
    }
  }

  // Where the lower bound finds another key, the key is absent.
  lemma AbsentKey(a: seq<Entry>, k: Str)
    requires StrictlySorted(a)
    requires var n := LowerBound(a, k); n == |a| || Less(k, a[n].key)
    ensures Values(a, k) == []
  {
    var n := LowerBound(a, k);
    forall x | x in a ensures x.key != k {
      var i :| 0 <= i < |a| && a[i] == x;
      if i > n { LessIsTransitive(k, a[n].key, x.key); }
      LessIsTotal(x.key, k);
    }
    NoValues(a, k);
  }

  lemma ValuesOfSplice(a: seq<Entry>, n: nat, e: Entry, k: Str)
    requires n <= |a|
    ensures Values(a[..n] + [e] + a[n..], k) ==
      Values(a[..n], k) + (if e.key == k then [e.value] else []) + Values(a[n..], k)
    ensures Values(a, k) == Values(a[..n], k) + Values(a[n..], k)
  {
    ValuesAppend(a[..n] + [e], a[n..], k);
    ValuesAppend(a[..n], [e], k);
    ValuesAppend(a[..n], a[n..], k);
    assert a == a[..n] + a[n..];
    assert Values([e], k) == if e.key == k then [e.value] else [];
  }

  lemma FirstOfFew(vs: seq<Str>, ws: seq<Str>)
    requires |vs| <= 1 && |ws| <= 1
    ensures First(vs + ws) == if vs == [] then ws else vs
  {
  }

  // An existing value stays; an absent key receives the value.
  lemma {:induction false} MapInsertKeepsFirst(a: seq<Entry>, e: Entry, k: Str)
    requires StrictlySorted(a)
    ensures Values(MapInsert(a, e), k) == First(Values(a, k) + if e.key == k then [e.value] else [])
  {
    var n := LowerBound(a, e.key);
    StrictHasOneValue(a, k);
    FirstOfFew(Values(a, k), if e.key == k then [e.value] else []);
    hide StrictlySorted, First, Values, LowerBound;
    if n < |a| && !Less(e.key, a[n].key) {
      LessIsTotal(e.key, a[n].key);
      NoValues(a, e.key);
    } else {
      AbsentKey(a, e.key);
      ValuesOfSplice(a, n, e, k);
    }
  }

  // The transfer into a map is a left-biased union: existing entries win over transferred ones,
  // earlier transferred ones win over later ones.
  lemma {:induction false} TransferMap(a: seq<Entry>, src: seq<Entry>, k: Str)
    requires StrictlySorted(a)
    ensures StrictlySorted(MapInsertAll(a, src))
    ensures Values(MapInsertAll(a, src), k) == First(Values(a, k) + Values(src, k))
    decreases |src|
  {
    if src == [] {
      StrictHasOneValue(a, k);
    } else {
      MapInsertKeepsSorted(a, src[0]);
      MapInsertKeepsFirst(a, src[0], k);
      TransferMap(MapInsert(a, src[0]), src[1..], k);
    }
  }

  lemma MapIsItsValues(a: seq<Entry>, b: seq<Entry>)
    requires StrictlySorted(a) && StrictlySorted(b) && forall k :: Values(a, k) == Values(b, k)
    ensures a == b
  {
    StrictIsSorted(a);
    StrictIsSorted(b);
    StableSortIsUnique(a, b);
  }

  // Transferring again changes nothing.
  lemma {:induction false} MapTransferIdempotent(a: seq<Entry>, src: seq<Entry>)
    requires StrictlySorted(a)
    ensures MapInsertAll(MapInsertAll(a, src), src) == MapInsertAll(a, src)
  {
    var r := MapInsertAll(a, src);
    TransferMap(a, src, []);
    TransferMap(r, src, []);
    forall k ensures Values(MapInsertAll(r, src), k) == Values(r, k) {
      TransferMap(a, src, k);
      TransferMap(r, src, k);
    }
    MapIsItsValues(MapInsertAll(r, src), r);
  }

  lemma {:induction false} MapInsertAllAppend(a: seq<Entry>, s: seq<Entry>, t: seq<Entry>)
    ensures MapInsertAll(MapInsertAll(a, s), t) == MapInsertAll(a, s + t)
    decreases |s|
  {
    if s == [] {
      assert s + t == t;
    } else {
      assert (s + t)[1..] == s[1..] + t;
      MapInsertAllAppend(MapInsert(a, s[0]), s[1..], t);
    }
  }

  lemma EmptyIsSorted()
    ensures StrictlySorted([])
  {
  }

  lemma {:induction false} MapRoundTrip(a: seq<Entry>)
    requires StrictlySorted(a)
    ensures MapInsertAll([], a) == a
  {
    hide StrictlySorted, MapInsertAll;
    EmptyIsSorted();
    TransferMap([], a, []);
    forall k ensures Values(MapInsertAll([], a), k) == Values(a, k) {
      TransferMap([], a, k);
      StrictHasOneValue(a, k);
      assert Values([], k) + Values(a, k) == Values(a, k);
    }
    MapIsItsValues(MapInsertAll([], a), a);
  }
}
