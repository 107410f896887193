/** The sorted, duplicate-free form of a set's items. */
module SetNormalForm {
  import opened Addresses
  import opened Model
  import opened VariableTypes

  ghost predicate KeysSorted(encode: Canon -> string, items: seq<Value>)
  {
    forall i, j :: 0 <= i < j < |items| ==> !Less(Key(encode, items[j]), Key(encode, items[i]))
  }

  ghost function Keys(encode: Canon -> string, items: seq<Value>): set<string>
  {
    set v | v in items :: Key(encode, v)
  }

  /** The first item with the given key. */
  function FirstWith(encode: Canon -> string, items: seq<Value>, key: string): Option<Value>
  {
    if items == [] then None
    else
      var before := FirstWith(encode, items[..|items| - 1], key);
      if before.Some? then before
      else if Key(encode, items[|items| - 1]) == key then Some(items[|items| - 1])
      else None
  }

  lemma FirstWithLast(encode: Canon -> string, init: seq<Value>, last: Value, key: string)
    ensures FirstWith(encode, init + [last], key) ==
            if FirstWith(encode, init, key).Some? then FirstWith(encode, init, key)
            else if Key(encode, last) == key then Some(last)
            else None
  {
    assert (init + [last])[..|init|] == init;
  }

  lemma SplitEnd(items: seq<Value>)
    requires items != []
    ensures items == items[..|items| - 1] + [items[|items| - 1]]
  {
  }

  lemma {:induction false} FirstWithSound(encode: Canon -> string, items: seq<Value>, key: string)
    ensures var f := FirstWith(encode, items, key);
            (f.Some? <==> key in Keys(encode, items)) && (f.Some? ==> f.value in items && Key(encode, f.value) == key)
  {
    hide Key;
    if items != [] {
      FirstWithSound(encode, items[..|items| - 1], key);
      SplitEnd(items);
    }
  }

  lemma {:induction false} InsertKeepsFirst(encode: Canon -> string, sorted: seq<Value>, x: Value, key: string)
    ensures FirstWith(encode, InsertByKey(encode, sorted, x), key) == FirstWith(encode, sorted + [x], key)
    decreases |sorted|
  {
    hide Key, Less;
    FirstWithLast(encode, sorted, x, key);
    if sorted != [] && Less(Key(encode, x), Key(encode, sorted[|sorted| - 1])) {
      var init, last := sorted[..|sorted| - 1], sorted[|sorted| - 1];
      LessTrichotomy(Key(encode, x), Key(encode, last));
      SplitEnd(sorted);
      InsertKeepsFirst(encode, init, x, key);
      FirstWithLast(encode, init, x, key);
      FirstWithLast(encode, init, last, key);
      FirstWithLast(encode, InsertByKey(encode, init, x), last, key);
    }
  }

  lemma InsertIsMultiset(encode: Canon -> string, sorted: seq<Value>, x: Value)
    ensures multiset(InsertByKey(encode, sorted, x)) == multiset(sorted) + multiset{x}
    decreases |sorted|
  {
    hide Key, Less;
    if sorted != [] && Less(Key(encode, x), Key(encode, sorted[|sorted| - 1])) {
      InsertIsMultiset(encode, sorted[..|sorted| - 1], x);
      SplitEnd(sorted);
    }
  }

  lemma {:induction false} InsertKeepsSorted(encode: Canon -> string, sorted: seq<Value>, x: Value)
    requires KeysSorted(encode, sorted)
    ensures KeysSorted(encode, InsertByKey(encode, sorted, x))
    decreases |sorted|
  {
    hide Key, Less;
    var n := |sorted| - 1;
    if sorted != [] && Less(Key(encode, x), Key(encode, sorted[n])) {
      var init, last := sorted[..n], sorted[n];
      InsertKeepsSorted(encode, init, x);
      InsertIsMultiset(encode, init, x);
      var t := InsertByKey(encode, init, x);
      forall v | v in t ensures !Less(Key(encode, last), Key(encode, v)) {
        assert v in multiset(t);
        LessTrichotomy(Key(encode, x), Key(encode, last));
        if v != x {
          assert v in init;
        }
      }
    } else {
      forall i | 0 <= i < |sorted| ensures !Less(Key(encode, x), Key(encode, sorted[i])) {
        LessTrichotomy(Key(encode, sorted[i]), Key(encode, sorted[i]));
        NotLessTrans(Key(encode, sorted[i]), Key(encode, sorted[n]), Key(encode, x));
      }
    }
  }

  lemma {:induction false} SortFacts(encode: Canon -> string, items: seq<Value>)
    ensures KeysSorted(encode, SortByKey(encode, items))
    ensures multiset(SortByKey(encode, items)) == multiset(items)
    decreases |items|
  {
    hide Key, InsertByKey;
    if items != [] {
      var init, last := items[..|items| - 1], items[|items| - 1];
      SplitEnd(items);
      SortFacts(encode, init);
      InsertKeepsSorted(encode, SortByKey(encode, init), last);
      InsertIsMultiset(encode, SortByKey(encode, init), last);
    }
  }

  /** Sorting is stable: the first item of every key stays the first. */
  lemma {:induction false} SortKeepsFirst(encode: Canon -> string, items: seq<Value>, key: string)
    ensures FirstWith(encode, SortByKey(encode, items), key) == FirstWith(encode, items, key)
    decreases |items|
  {
    hide Key, InsertByKey;
    if items != [] {
      var init, last := items[..|items| - 1], items[|items| - 1];
      SplitEnd(items);
      SortKeepsFirst(encode, init, key);
      InsertKeepsFirst(encode, SortByKey(encode, init), last, key);
      FirstWithLast(encode, SortByKey(encode, init), last, key);
      FirstWithLast(encode, init, last, key);
    }
  }

  lemma {:induction false} SortIdentity(encode: Canon -> string, items: seq<Value>)
    requires KeysSorted(encode, items)
    ensures SortByKey(encode, items) == items
    decreases |items|
  {
    hide Key;
    if items != [] {
      SplitEnd(items);
      SortIdentity(encode, items[..|items| - 1]);
    }
  }

  lemma {:induction false} DedupeFacts(encode: Canon -> string, items: seq<Value>)
    requires KeysSorted(encode, items)
    ensures var d := Dedupe(encode, items);
            && KeysRise(encode, d)
            && (forall v :: v in d ==> v in items)
            && (items != [] ==> d != [] && Key(encode, d[|d| - 1]) == Key(encode, items[|items| - 1]))
    decreases |items|
  {
    hide Key, Less;
    if items != [] {
      var n := |items| - 1;
      SplitEnd(items);
      DedupeFacts(encode, items[..n]);
      var d := Dedupe(encode, items[..n]);
      if n > 0 && Key(encode, items[n]) != Key(encode, items[n - 1]) {
        LessTrichotomy(Key(encode, items[n - 1]), Key(encode, items[n]));
        forall i | 0 <= i < |d| ensures Less(Key(encode, d[i]), Key(encode, items[n])) {
          if i < |d| - 1 { LessTrans(Key(encode, d[i]), Key(encode, d[|d| - 1]), Key(encode, items[n])); }
        }
      }
    }
  }

  lemma {:induction false} DedupeKeepsFirst(encode: Canon -> string, items: seq<Value>, key: string)
    requires KeysSorted(encode, items)
    ensures FirstWith(encode, Dedupe(encode, items), key) == FirstWith(encode, items, key)
    decreases |items|
  {
    hide Key, Less, KeysSorted;
    if items != [] {
      var n := |items| - 1;
      SplitEnd(items);
      SortedPrefix(encode, items);
      DedupeKeepsFirst(encode, items[..n], key);
      FirstWithLast(encode, items[..n], items[n], key);
      FirstWithLast(encode, Dedupe(encode, items[..n]), items[n], key);
      if n > 0 && Key(encode, items[n]) == Key(encode, items[n - 1]) {
        FirstWithLast(encode, items[..n - 1], items[n - 1], key);
        SplitEnd(items[..n]);
        assert items[..n][..n - 1] == items[..n - 1];
      }
    }
  }

  lemma SortedPrefix(encode: Canon -> string, items: seq<Value>)
    requires KeysSorted(encode, items) && items != []
    ensures KeysSorted(encode, items[..|items| - 1])
  {
  }

  lemma RiseIsSorted(encode: Canon -> string, items: seq<Value>)
    requires KeysRise(encode, items)
    ensures KeysSorted(encode, items)
  {
    hide Key, Less;
    forall i, j | 0 <= i < j < |items| ensures !Less(Key(encode, items[j]), Key(encode, items[i])) {
      LessTrichotomy(Key(encode, items[i]), Key(encode, items[j]));
    }
  }

  lemma {:induction false} DedupeIdentity(encode: Canon -> string, items: seq<Value>)
    requires KeysRise(encode, items)
    ensures Dedupe(encode, items) == items
    decreases |items|
  {
    hide Key, Less;
    if items != [] {
      var n := |items| - 1;
      SplitEnd(items);
      DedupeIdentity(encode, items[..n]);
      if n > 0 { LessTrichotomy(Key(encode, items[n - 1]), Key(encode, items[n])); }
    }
  }

  function NormalForm(encode: Canon -> string, items: seq<Value>): seq<Value>
  {
    Dedupe(encode, SortByKey(encode, items))
  }

  /** The normal form has strictly rising keys and, of every key, the first item that had it. */
  lemma NormalFormFacts(encode: Canon -> string, items: seq<Value>)
    ensures KeysRise(encode, NormalForm(encode, items))
    ensures forall v :: v in NormalForm(encode, items) ==> v in items
    ensures forall key :: FirstWith(encode, NormalForm(encode, items), key) == FirstWith(encode, items, key)
    ensures Keys(encode, NormalForm(encode, items)) == Keys(encode, items)
  {
    hide Key, Less, KeysRise, KeysSorted, SortByKey, Dedupe, FirstWith;
    var sorted := SortByKey(encode, items);
    SortFacts(encode, items);
    DedupeFacts(encode, sorted);
    assert forall v :: v in sorted ==> v in multiset(items);
    forall key ensures FirstWith(encode, NormalForm(encode, items), key) == FirstWith(encode, items, key) {
      SortKeepsFirst(encode, items, key);
      DedupeKeepsFirst(encode, sorted, key);
    }
    forall key ensures key in Keys(encode, NormalForm(encode, items)) <==> key in Keys(encode, items) {
      FirstWithSound(encode, items, key);
      FirstWithSound(encode, NormalForm(encode, items), key);
    }
  }

  lemma NormalFormIdentity(encode: Canon -> string, items: seq<Value>)
    requires KeysRise(encode, items)
    ensures NormalForm(encode, items) == items
  {
    RiseIsSorted(encode, items);
    SortIdentity(encode, items);
    DedupeIdentity(encode, items);
  }

  ghost function KeyList(encode: Canon -> string, items: seq<Value>): seq<string>
  {
    seq(|items|, i requires 0 <= i < |items| => Key(encode, items[i]))
  }

  /** The keys of the normal form are the sorted keys of the items, whatever their order and repetition. */
  lemma NormalFormKeys(encode: Canon -> string, items: seq<Value>)
    ensures KeyList(encode, NormalForm(encode, items)) == SortedSeq(Keys(encode, items))
  {
    hide Key, NormalForm;
    NormalFormFacts(encode, items);
    var form := NormalForm(encode, items);
    var keys := KeyList(encode, form);
    forall k ensures k in Elements(keys) <==> k in Keys(encode, items) {
      if k in Keys(encode, form) {
        var v :| v in form && Key(encode, v) == k;
        var i :| 0 <= i < |form| && form[i] == v;
        assert keys[i] == k;
      }
    }
    assert Elements(keys) == Keys(encode, items);
    SortedUnique(keys, SortedSeq(Keys(encode, items)));
  }

  /** The sort and the in-place removal of repeated keys. */
  method SortAndDedupe(encode: Canon -> string, items: seq<Value>) returns (out: seq<Value>)
    ensures out == NormalForm(encode, items)
  {
    var sorted := StableSortByKey(encode, items);
    hide SortByKey, Dedupe;
    var a := new Value[|sorted|](i requires 0 <= i < |sorted| => sorted[i]);
    assert a[..] == sorted;
    var kept := DedupeInPlace(encode, a);
    return a[..kept];
  }

  lemma DedupeNext(encode: Canon -> string, items: seq<Value>, i: nat)
    requires i < |items|
    ensures Dedupe(encode, items[..i + 1]) ==
            if i > 0 && Key(encode, items[i]) == Key(encode, items[i - 1]) then Dedupe(encode, items[..i])
            else Dedupe(encode, items[..i]) + [items[i]]
  {
    hide Key;
    assert items[..i + 1][..i] == items[..i];
  }

  /** Kept items are moved to the front of the array, over items already read. */
  method DedupeInPlace(encode: Canon -> string, a: array<Value>) returns (kept: nat)
    modifies a
    ensures kept <= a.Length && a[..kept] == Dedupe(encode, old(a[..]))
  {
    hide *;
    ghost var sorted := a[..];
    kept := 0;
    var last := "";
    DedupeNothing(encode, sorted);
    for i := 0 to a.Length
      invariant kept <= i
      invariant forall k :: i <= k < a.Length ==> a[k] == sorted[k]
      invariant a[..kept] == Dedupe(encode, sorted[..i])
      invariant i > 0 ==> last == Key(encode, sorted[i - 1])
    {
      var item := a[i];
      var key := Key(encode, item);
      DedupeNext(encode, sorted, i);
      if i == 0 || key != last {
        a[kept] := item;
        kept := kept + 1;
        assert a[..kept] == a[..kept - 1] + [item];
      }
      last := key;
    }
    assert sorted[..a.Length] == sorted;
  }

  lemma DedupeNothing(encode: Canon -> string, items: seq<Value>)
    ensures Dedupe(encode, items[..0]) == []
  {
  }

  lemma SortNothing(encode: Canon -> string, items: seq<Value>)
    ensures SortByKey(encode, items[..0]) == []
  {
  }

  lemma SortNext(encode: Canon -> string, items: seq<Value>, n: nat)
    requires n < |items|
    ensures SortByKey(encode, items[..n + 1]) == InsertByKey(encode, SortByKey(encode, items[..n]), items[n])
  {
    hide InsertByKey;
    assert items[..n + 1][..n] == items[..n];
  }

  method StableSortByKey(encode: Canon -> string, items: seq<Value>) returns (sorted: seq<Value>)
    ensures sorted == SortByKey(encode, items)
  {
    SortNothing(encode, items);
    hide Key, Less, SortByKey;
    sorted := [];
    for n := 0 to |items|
      invariant sorted == SortByKey(encode, items[..n])
    {
      var at := |sorted|;
      assert sorted[..at] == sorted && sorted[at..] == [];
      while at > 0 && Less(Key(encode, items[n]), Key(encode, sorted[at - 1]))
        invariant 0 <= at <= |sorted|
        invariant InsertByKey(encode, sorted, items[n]) == InsertByKey(encode, sorted[..at], items[n]) + sorted[at..]
      {
        assert sorted[..at][..at - 1] == sorted[..at - 1];
        assert [sorted[at - 1]] + sorted[at..] == sorted[at - 1..];
        at := at - 1;
      }
      SortNext(encode, items, n);
      sorted := sorted[..at] + [items[n]] + sorted[at..];
    }
    assert items[..|items|] == items;
  }
}
