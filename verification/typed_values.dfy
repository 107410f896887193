/** Typed normalisation: what it accepts, that its results are exactly its fixed points, and its method. */
module TypedValues {
  import opened Addresses
  import opened Model
  import opened VariableTypes
  import opened SetNormalForm

  // ---- Lists, maps and objects, element by element ----

  lemma {:induction false} ItemsAre(encode: Canon -> string, spec: Type, items: seq<Value>, n: nat)
    requires HasItems(spec, |items|) && n <= |items|
    ensures var r := NormalizeItems(encode, spec, items, n);
            && (r.Ok? <==> forall i :: 0 <= i < n ==> Normalize(encode, ItemType(spec, i), items[i]).Ok?)
            && (r.Ok? ==> |r.value| == n && forall i :: 0 <= i < n ==> Normalize(encode, ItemType(spec, i), items[i]) == Ok(r.value[i]))
    decreases n
  {
    hide Normalize;
    if n > 0 { ItemsAre(encode, spec, items, n - 1); }
  }

  lemma {:induction false} EntriesAre(encode: Canon -> string, spec: Type, entries: map<string, Value>,
                                      keys: seq<string>)
    requires spec.MapType?
    ensures var r := NormalizeEntries(encode, spec, entries, keys);
            && (r.Ok? <==> forall k :: k in keys && k in entries ==> Normalize(encode, spec.element, entries[k]).Ok?)
            && (r.Ok? ==> (forall k :: k in r.value <==> k in keys && k in entries) &&
                          forall k :: k in r.value ==> Normalize(encode, spec.element, entries[k]) == Ok(r.value[k]))
    decreases |keys|
  {
    hide Normalize;
    if keys != [] {
      var n := |keys| - 1;
      EntriesAre(encode, spec, entries, keys[..n]);
      assert keys == keys[..n] + [keys[n]];
    }
  }

  lemma {:induction false} AttributesAre(encode: Canon -> string, spec: Type, entries: map<string, Value>,
                                         names: seq<string>)
    requires spec.ObjectType?
    ensures var r := NormalizeAttributes(encode, spec, entries, names);
            && (r.Ok? <==> forall k :: k in names && k in spec.attributes ==> NormalizeAttribute(encode, spec.attributes[k], k, entries).Ok?)
            && (r.Ok? ==> (forall k :: k in r.value <==> k in names && k in spec.attributes) &&
                          forall k :: k in r.value ==> NormalizeAttribute(encode, spec.attributes[k], k, entries) == Ok(r.value[k]))
    decreases |names|
  {
    hide NormalizeAttribute;
    if names != [] {
      var n := |names| - 1;
      AttributesAre(encode, spec, entries, names[..n]);
      assert names == names[..n] + [names[n]];
    }
  }

  // ---- Results conform, and conforming values are left alone ----

  lemma {:induction false} OutputConforms(encode: Canon -> string, spec: Type, value: Value)
    requires Normalize(encode, spec, value).Ok?
    ensures Conforms(encode, spec, Normalize(encode, spec, value).value)
    decreases spec
  {
    hide NormalizeItems, NormalizeEntries, NormalizeAttributes, KeysRise, SortByKey, Dedupe;
    if !value.Null? {
      match spec {
        case ListType(_) => ItemsConform(encode, spec, value.items);
        case SetType(_) =>
          ItemsConform(encode, spec, value.items);
          SetConforms(encode, spec.element, NormalizeItems(encode, spec, value.items, |value.items|).value);
        case TupleType(_) => ItemsConform(encode, spec, value.items);
        case MapType(_) => EntriesConform(encode, spec, value.entries);
        case ObjectType(_) => AttributesConform(encode, spec, value.entries);
        case _ =>
      }
    }
  }

  lemma SetConforms(encode: Canon -> string, element: Type, items: seq<Value>)
    requires forall i :: 0 <= i < |items| ==> Conforms(encode, element, items[i])
    ensures var form := Dedupe(encode, SortByKey(encode, items));
            KeysRise(encode, form) && forall i :: 0 <= i < |form| ==> Conforms(encode, element, form[i])
  {
    hide Conforms, Dedupe, SortByKey, KeysRise;
    NormalFormFacts(encode, items);
    var form := NormalForm(encode, items);
    forall i | 0 <= i < |form| ensures Conforms(encode, element, form[i]) {
      assert form[i] in items;
    }
  }

  lemma {:induction false} ItemsConform(encode: Canon -> string, spec: Type, items: seq<Value>)
    requires HasItems(spec, |items|) && NormalizeItems(encode, spec, items, |items|).Ok?
    ensures var r := NormalizeItems(encode, spec, items, |items|).value;
            |r| == |items| && forall i :: 0 <= i < |r| ==> Conforms(encode, ItemType(spec, i), r[i])
    decreases spec, 0
  {
    hide Conforms, Normalize;
    ItemsAre(encode, spec, items, |items|);
    forall i | 0 <= i < |items| ensures Conforms(encode, ItemType(spec, i), NormalizeItems(encode, spec, items, |items|).value[i]) {
      OutputConforms(encode, ItemType(spec, i), items[i]);
    }
  }

  lemma {:induction false} EntriesConform(encode: Canon -> string, spec: Type, entries: map<string, Value>)
    requires spec.MapType? && NormalizeEntries(encode, spec, entries, SortedSeq(entries.Keys)).Ok?
    ensures var r := NormalizeEntries(encode, spec, entries, SortedSeq(entries.Keys)).value;
            forall k :: k in r ==> Conforms(encode, spec.element, r[k])
    decreases spec, 0
  {
    hide Conforms, Normalize, NormalizeEntries;
    var r := NormalizeEntries(encode, spec, entries, SortedSeq(entries.Keys)).value;
    EntriesAre(encode, spec, entries, SortedSeq(entries.Keys));
    forall k | k in r ensures Conforms(encode, spec.element, r[k]) {
      OutputConforms(encode, spec.element, entries[k]);
    }
  }

  lemma {:induction false} AttributesConform(encode: Canon -> string, spec: Type, entries: map<string, Value>)
    requires spec.ObjectType? && NormalizeAttributes(encode, spec, entries, SortedSeq(spec.attributes.Keys)).Ok?
    ensures var r := NormalizeAttributes(encode, spec, entries, SortedSeq(spec.attributes.Keys)).value;
            r.Keys == spec.attributes.Keys && forall k :: k in r ==> Conforms(encode, spec.attributes[k].kind, r[k])
    decreases spec, 0
  {
    hide Normalize, NormalizeAttributes;
    var r := NormalizeAttributes(encode, spec, entries, SortedSeq(spec.attributes.Keys)).value;
    AttributesAre(encode, spec, entries, SortedSeq(spec.attributes.Keys));
    SortedSeqMembers(spec.attributes.Keys);
    forall k | k in r ensures Conforms(encode, spec.attributes[k].kind, r[k]) {
      var attribute := spec.attributes[k];
      if k in entries {
        OutputConforms(encode, attribute.kind, entries[k]);
      } else if attribute.default.Some? {
        OutputConforms(encode, attribute.kind, attribute.default.value);
      }
    }
  }

  lemma {:induction false} ConformingUnchanged(encode: Canon -> string, spec: Type, value: Value)
    requires Conforms(encode, spec, value)
    ensures Normalize(encode, spec, value) == Ok(value)
    decreases spec
  {
    if !value.Null? {
      match spec {
        case ListType(_) => ItemsUnchanged(encode, spec, value.items);
        case SetType(_) =>
          ItemsUnchanged(encode, spec, value.items);
          NormalFormIdentity(encode, value.items);
        case TupleType(_) => ItemsUnchanged(encode, spec, value.items);
        case MapType(_) => EntriesUnchanged(encode, spec, value.entries);
        case ObjectType(_) => AttributesUnchanged(encode, spec, value.entries);
        case _ =>
      }
    }
  }

  lemma {:induction false} ItemsUnchanged(encode: Canon -> string, spec: Type, items: seq<Value>)
    requires HasItems(spec, |items|) && forall i :: 0 <= i < |items| ==> Conforms(encode, ItemType(spec, i), items[i])
    ensures NormalizeItems(encode, spec, items, |items|) == Ok(items)
    decreases spec, 0
  {
    hide Conforms, Normalize;
    ItemsAre(encode, spec, items, |items|);
    forall i | 0 <= i < |items| ensures Normalize(encode, ItemType(spec, i), items[i]) == Ok(items[i]) {
      ConformingUnchanged(encode, ItemType(spec, i), items[i]);
    }
    assert NormalizeItems(encode, spec, items, |items|).value == items;
  }

  lemma {:induction false} EntriesUnchanged(encode: Canon -> string, spec: Type, entries: map<string, Value>)
    requires spec.MapType? && forall k :: k in entries ==> Conforms(encode, spec.element, entries[k])
    ensures NormalizeEntries(encode, spec, entries, SortedSeq(entries.Keys)) == Ok(entries)
    decreases spec, 0
  {
    hide Conforms, Normalize, NormalizeEntries;
    EntriesAre(encode, spec, entries, SortedSeq(entries.Keys));
    SortedSeqMembers(entries.Keys);
    forall k | k in entries ensures Normalize(encode, spec.element, entries[k]) == Ok(entries[k]) {
      ConformingUnchanged(encode, spec.element, entries[k]);
    }
    assert NormalizeEntries(encode, spec, entries, SortedSeq(entries.Keys)).value == entries;
  }

  lemma {:induction false} AttributesUnchanged(encode: Canon -> string, spec: Type, entries: map<string, Value>)
    requires spec.ObjectType? && entries.Keys == spec.attributes.Keys
    requires forall k :: k in entries ==> Conforms(encode, spec.attributes[k].kind, entries[k])
    ensures NormalizeAttributes(encode, spec, entries, SortedSeq(spec.attributes.Keys)) == Ok(entries)
    decreases spec, 0
  {
    hide Conforms, Normalize, NormalizeAttributes;
    AttributesAre(encode, spec, entries, SortedSeq(spec.attributes.Keys));
    SortedSeqMembers(spec.attributes.Keys);
    forall k | k in entries ensures NormalizeAttribute(encode, spec.attributes[k], k, entries) == Ok(entries[k]) {
      ConformingUnchanged(encode, spec.attributes[k].kind, entries[k]);
    }
    assert NormalizeAttributes(encode, spec, entries, SortedSeq(spec.attributes.Keys)).value == entries;
  }

  /** The values that normalisation leaves alone are exactly those of the type. */
  lemma FixedPointsConform(encode: Canon -> string, spec: Type, value: Value)
    ensures Normalize(encode, spec, value) == Ok(value) <==> Conforms(encode, spec, value)
  {
    hide Normalize, Conforms;
    if Conforms(encode, spec, value) {
      ConformingUnchanged(encode, spec, value);
    }
    if Normalize(encode, spec, value) == Ok(value) {
      OutputConforms(encode, spec, value);
    }
  }

  /** Normalising twice is normalising once. */
  lemma NormalizeIdempotent(encode: Canon -> string, spec: Type, value: Value)
    requires Normalize(encode, spec, value).Ok?
    ensures var once := Normalize(encode, spec, value).value; Normalize(encode, spec, once) == Ok(once)
  {
    hide Normalize, Conforms;
    OutputConforms(encode, spec, value);
    ConformingUnchanged(encode, spec, Normalize(encode, spec, value).value);
  }

  // ---- What is accepted ----

  /** A value is acceptable for a type, said without computing the result. */
  ghost predicate Accepts(spec: Type, value: Value)
    decreases spec
  {
    value.Null? ||
    match spec
    case AnyType => true
    case TextType => value.Text?
    case NumberType => value.Number?
    case BoolType => value.Bool?
    case ListType(element) => value.List? && forall i :: 0 <= i < |value.items| ==> Accepts(element, value.items[i])
    case SetType(element) => value.List? && forall i :: 0 <= i < |value.items| ==> Accepts(element, value.items[i])
    case TupleType(components) =>
      value.List? && |value.items| == |components| && forall i :: 0 <= i < |components| ==> Accepts(components[i], value.items[i])
    case MapType(element) => value.Dict? && forall k :: k in value.entries ==> Accepts(element, value.entries[k])
    case ObjectType(attributes) =>
      && value.Dict? && value.entries.Keys <= attributes.Keys
      && (forall k :: k in value.entries ==> Accepts(attributes[k].kind, value.entries[k]))
      && (forall k :: k in attributes && k !in value.entries && attributes[k].default.Some? ==>
            Accepts(attributes[k].kind, attributes[k].default.value))
      && (forall k :: k in attributes && k !in value.entries && attributes[k].default.None? ==> attributes[k].optional)
  }

  /** Exactly the acceptable values are normalised. */
  lemma {:induction false} AcceptedExactly(encode: Canon -> string, spec: Type, value: Value)
    ensures Normalize(encode, spec, value).Ok? <==> Accepts(spec, value)
    decreases spec
  {
    if !value.Null? {
      match spec {
        case ListType(_) => if value.List? { ItemsAccepted(encode, spec, value.items); }
        case SetType(_) => if value.List? { ItemsAccepted(encode, spec, value.items); }
        case TupleType(components) => if value.List? && |value.items| == |components| { ItemsAccepted(encode, spec, value.items); }
        case MapType(element) =>
          if value.Dict? {
            EntriesAre(encode, spec, value.entries, SortedSeq(value.entries.Keys));
            SortedSeqMembers(value.entries.Keys);
            forall k | k in value.entries ensures Normalize(encode, element, value.entries[k]).Ok? <==> Accepts(element, value.entries[k]) {
              AcceptedExactly(encode, element, value.entries[k]);
            }
          }
        case ObjectType(attributes) =>
          if value.Dict? && value.entries.Keys <= attributes.Keys {
            AttributesAccepted(encode, spec, value.entries);
          }
        case _ =>
      }
    }
  }

  lemma {:induction false} ItemsAccepted(encode: Canon -> string, spec: Type, items: seq<Value>)
    requires HasItems(spec, |items|)
    ensures NormalizeItems(encode, spec, items, |items|).Ok? <==> forall i :: 0 <= i < |items| ==> Accepts(ItemType(spec, i), items[i])
    decreases spec, 0
  {
    hide Accepts, Normalize;
    ItemsAre(encode, spec, items, |items|);
    forall i | 0 <= i < |items| ensures Normalize(encode, ItemType(spec, i), items[i]).Ok? <==> Accepts(ItemType(spec, i), items[i]) {
      AcceptedExactly(encode, ItemType(spec, i), items[i]);
    }
  }

  lemma {:induction false} AttributesAccepted(encode: Canon -> string, spec: Type, entries: map<string, Value>)
    requires spec.ObjectType? && entries.Keys <= spec.attributes.Keys
    ensures NormalizeAttributes(encode, spec, entries, SortedSeq(spec.attributes.Keys)).Ok? <==>
            && (forall k :: k in entries ==> Accepts(spec.attributes[k].kind, entries[k]))
            && (forall k :: k in spec.attributes && k !in entries && spec.attributes[k].default.Some? ==>
                  Accepts(spec.attributes[k].kind, spec.attributes[k].default.value))
            && (forall k :: k in spec.attributes && k !in entries && spec.attributes[k].default.None? ==> spec.attributes[k].optional)
    decreases spec, 0
  {
    hide Accepts, Normalize, NormalizeAttributes;
    AttributesAre(encode, spec, entries, SortedSeq(spec.attributes.Keys));
    SortedSeqMembers(spec.attributes.Keys);
    forall k | k in entries
      ensures Normalize(encode, spec.attributes[k].kind, entries[k]).Ok? <==> Accepts(spec.attributes[k].kind, entries[k])
    {
      AcceptedExactly(encode, spec.attributes[k].kind, entries[k]);
    }
    forall k | k in spec.attributes && spec.attributes[k].default.Some?
      ensures Normalize(encode, spec.attributes[k].kind, spec.attributes[k].default.value).Ok? <==>
              Accepts(spec.attributes[k].kind, spec.attributes[k].default.value)
    {
      AcceptedExactly(encode, spec.attributes[k].kind, spec.attributes[k].default.value);
    }
  }

  // ---- Sets ----

  lemma SetResult(encode: Canon -> string, element: Type, xs: seq<Value>, marks: Marks)
    ensures var a, p := Normalize(encode, SetType(element), List(xs, marks)), NormalizeItems(encode, SetType(element), xs, |xs|);
            && (a.Ok? <==> p.Ok?)
            && (p.Ok? ==> a.value == List(NormalForm(encode, p.value), marks))
  {
    hide NormalizeItems, SortByKey, Dedupe;
  }

  /** Any reordering and repetition of a set's items is accepted alike and gives the same keys in the same order. */
  lemma SetIgnoresOrder(encode: Canon -> string, element: Type, xs: seq<Value>, ys: seq<Value>, marks: Marks)
    requires forall v :: v in xs <==> v in ys
    ensures var a, b := Normalize(encode, SetType(element), List(xs, marks)), Normalize(encode, SetType(element), List(ys, marks));
            && (a.Ok? <==> b.Ok?)
            && (a.Ok? ==> a.value.List? && b.value.List? && KeyList(encode, a.value.items) == KeyList(encode, b.value.items))
  {
    hide Normalize, NormalizeItems, KeyList, NormalForm, Keys, Key, SortedSeq, ItemType;
    var p, q := NormalizeItems(encode, SetType(element), xs, |xs|), NormalizeItems(encode, SetType(element), ys, |ys|);
    ItemsAre(encode, SetType(element), xs, |xs|);
    ItemsAre(encode, SetType(element), ys, |ys|);
    SetResult(encode, element, xs, marks);
    SetResult(encode, element, ys, marks);
    ItemTypeIs(element);
    BothAccepted(encode, element, xs, ys);
    if p.Ok? && q.Ok? {
      SameResults(encode, element, xs, p.value, ys, q.value);
      SameResults(encode, element, ys, q.value, xs, p.value);
      SameKeys(encode, p.value, q.value);
      NormalFormKeys(encode, p.value);
      NormalFormKeys(encode, q.value);
    }
  }

  /** Of the items that share a key, a set keeps the first. */
  lemma SetKeepsFirst(encode: Canon -> string, element: Type, xs: seq<Value>, marks: Marks, key: string)
    requires Normalize(encode, SetType(element), List(xs, marks)).Ok?
    ensures var a, p := Normalize(encode, SetType(element), List(xs, marks)), NormalizeItems(encode, SetType(element), xs, |xs|);
            p.Ok? && a.value.List? && FirstWith(encode, a.value.items, key) == FirstWith(encode, p.value, key)
  {
    SetResult(encode, element, xs, marks);
    NormalFormFacts(encode, NormalizeItems(encode, SetType(element), xs, |xs|).value);
    hide *;
  }

  lemma ItemTypeIs(element: Type)
    ensures forall i :: ItemType(SetType(element), i) == element
  {
  }

  lemma BothAccepted(encode: Canon -> string, element: Type, xs: seq<Value>, ys: seq<Value>)
    requires forall v :: v in xs <==> v in ys
    ensures (forall i :: 0 <= i < |xs| ==> Normalize(encode, element, xs[i]).Ok?) <==>
            (forall i :: 0 <= i < |ys| ==> Normalize(encode, element, ys[i]).Ok?)
  {
    hide Normalize;
    assert forall i :: 0 <= i < |xs| ==> xs[i] in ys;
    assert forall i :: 0 <= i < |ys| ==> ys[i] in xs;
  }

  lemma SameKeys(encode: Canon -> string, p: seq<Value>, q: seq<Value>)
    requires forall v :: v in p <==> v in q
    ensures Keys(encode, p) == Keys(encode, q)
  {
    hide Key;
  }

  lemma SameResults(encode: Canon -> string, element: Type, xs: seq<Value>, p: seq<Value>, ys: seq<Value>,
                    q: seq<Value>)
    requires |p| == |xs| && |q| == |ys| && forall v :: v in xs ==> v in ys
    requires forall i :: 0 <= i < |xs| ==> Normalize(encode, element, xs[i]) == Ok(p[i])
    requires forall i :: 0 <= i < |ys| ==> Normalize(encode, element, ys[i]) == Ok(q[i])
    ensures forall v :: v in p ==> v in q
  {
    hide Normalize;
    forall v | v in p ensures v in q {
      var i :| 0 <= i < |p| && p[i] == v;
      assert xs[i] in ys;
      var j :| 0 <= j < |ys| && ys[j] == xs[i];
      assert q[j] == v;
    }
  }
}
