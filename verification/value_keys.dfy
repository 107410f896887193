/** What a set key tells apart: exactly everything but marks and the difference between a number and its digits. */
module ValueKeys {
  import opened VariableTypes
  import opened SetNormalForm
  import opened TypedValues

  ghost predicate Injective(encode: Canon -> string)
  {
    forall c, d :: encode(c) == encode(d) ==> c == d
  }

  /** The value without its marks down to its leaves, with every number written as its digits when numbersAsText. */
  function Bare(numbersAsText: bool, v: Value): Value
    decreases v
  {
    match v
    case Null(_) => Null(UNMARKED)
    case Text(text, _) => Value.Text(text, UNMARKED)
    case Bool(flag, _) => Bool(flag, UNMARKED)
    case Number(digits, _) => if numbersAsText then Value.Text(digits, UNMARKED) else Number(digits, UNMARKED)
    case List(items, _) => List(seq(|items|, i requires 0 <= i < |items| => Bare(numbersAsText, items[i])), UNMARKED)
    case Dict(entries, _) => Dict(map k | k in entries :: Bare(numbersAsText, entries[k]), UNMARKED)
  }

  function Unmarked(v: Value): Value { Bare(false, v) }

  function Plain(v: Value): Value { Bare(true, v) }

  lemma BareItems(t: bool, v: Value, w: Value)
    requires v.List? && w.List?
    ensures Bare(t, v) == Bare(t, w) <==>
            |v.items| == |w.items| && forall i :: 0 <= i < |v.items| ==> Bare(t, v.items[i]) == Bare(t, w.items[i])
  {
    if Bare(t, v) == Bare(t, w) {
      forall i | 0 <= i < |v.items| ensures Bare(t, v.items[i]) == Bare(t, w.items[i]) {
        assert Bare(t, v).items[i] == Bare(t, w).items[i];
      }
    }
  }

  lemma BareEntries(t: bool, v: Value, w: Value)
    requires v.Dict? && w.Dict?
    ensures Bare(t, v) == Bare(t, w) <==>
            v.entries.Keys == w.entries.Keys && forall k :: k in v.entries ==> Bare(t, v.entries[k]) == Bare(t, w.entries[k])
  {
    BareDict(t, v);
    BareDict(t, w);
    hide Bare;
    var a, b := Bare(t, v).entries, Bare(t, w).entries;
    SameMap(a, b);
  }

  lemma SameMap(a: map<string, Value>, b: map<string, Value>)
    ensures a == b <==> a.Keys == b.Keys && forall k :: k in a ==> a[k] == b[k]
  {
  }

  lemma BareDict(t: bool, v: Value)
    requires v.Dict?
    ensures Bare(t, v).Dict? && Bare(t, v).marks == UNMARKED && Bare(t, v).entries.Keys == v.entries.Keys
    ensures forall k :: k in v.entries ==> Bare(t, v).entries[k] == Bare(t, v.entries[k])
  {
  }

  lemma CanonItems(v: Value, w: Value)
    requires v.List? && w.List?
    ensures CanonOf(v) == CanonOf(w) <==>
            |v.items| == |w.items| && forall i :: 0 <= i < |v.items| ==> CanonOf(v.items[i]) == CanonOf(w.items[i])
  {
    if CanonOf(v) == CanonOf(w) {
      forall i | 0 <= i < |v.items| ensures CanonOf(v.items[i]) == CanonOf(w.items[i]) {
        assert CanonOf(v).items[i] == CanonOf(w).items[i];
      }
    }
  }

  lemma CanonEntries(v: Value, w: Value)
    requires v.Dict? && w.Dict?
    ensures CanonOf(v) == CanonOf(w) <==>
            v.entries.Keys == w.entries.Keys && forall k :: k in v.entries ==> CanonOf(v.entries[k]) == CanonOf(w.entries[k])
  {
    assert CanonOf(v).entries.Keys == v.entries.Keys && CanonOf(w).entries.Keys == w.entries.Keys;
    if CanonOf(v) == CanonOf(w) {
      forall k | k in v.entries ensures CanonOf(v.entries[k]) == CanonOf(w.entries[k]) {
        assert CanonOf(v).entries[k] == CanonOf(w).entries[k];
      }
    }
  }

  lemma {:induction false} CanonIsPlain(v: Value, w: Value)
    ensures CanonOf(v) == CanonOf(w) <==> Plain(v) == Plain(w)
    decreases v
  {
    if v.List? && w.List? {
      CanonItems(v, w);
      BareItems(true, v, w);
      hide Bare, CanonOf;
      forall i | 0 <= i < |v.items| && |v.items| == |w.items|
        ensures CanonOf(v.items[i]) == CanonOf(w.items[i]) <==> Bare(true, v.items[i]) == Bare(true, w.items[i])
      {
        CanonIsPlain(v.items[i], w.items[i]);
      }
    } else if v.Dict? && w.Dict? {
      CanonEntries(v, w);
      BareEntries(true, v, w);
      hide Bare, CanonOf;
      forall k | k in v.entries && k in w.entries
        ensures CanonOf(v.entries[k]) == CanonOf(w.entries[k]) <==> Bare(true, v.entries[k]) == Bare(true, w.entries[k])
      {
        CanonIsPlain(v.entries[k], w.entries[k]);
      }
    }
  }

  /** Two values share a key exactly when they differ in no more than marks and numbers written as text. */
  lemma SharesKeyExactly(encode: Canon -> string, v: Value, w: Value)
    requires Injective(encode)
    ensures Key(encode, v) == Key(encode, w) <==> Plain(v) == Plain(w)
  {
    CanonIsPlain(v, w);
  }

  // ---- types that keys tell apart ----

  /** No part of the type is any. */
  predicate Definite(spec: Type)
    decreases spec
  {
    match spec
    case AnyType => false
    case TextType => true
    case NumberType => true
    case BoolType => true
    case ListType(element) => Definite(element)
    case SetType(element) => Definite(element)
    case MapType(element) => Definite(element)
    case ObjectType(attributes) => forall k :: k in attributes ==> Definite(attributes[k].kind)
    case TupleType(components) => forall i :: 0 <= i < |components| ==> Definite(components[i])
  }

  /** Below a definite type, values that share a key differ in their marks at most. */
  lemma {:induction false} DefiniteKeys(spec: Type, v: Value, w: Value)
    requires Definite(spec) && Accepts(spec, v) && Accepts(spec, w)
    ensures Plain(v) == Plain(w) <==> Unmarked(v) == Unmarked(w)
    decreases spec
  {
    if v.List? && w.List? {
      BareItems(true, v, w);
      BareItems(false, v, w);
      forall i | 0 <= i < |v.items| && |v.items| == |w.items|
        ensures Bare(true, v.items[i]) == Bare(true, w.items[i]) <==> Bare(false, v.items[i]) == Bare(false, w.items[i])
      {
        DefiniteKeys(if spec.TupleType? then spec.components[i] else spec.element, v.items[i], w.items[i]);
      }
    } else if v.Dict? && w.Dict? {
      BareEntries(true, v, w);
      BareEntries(false, v, w);
      forall k | k in v.entries && k in w.entries
        ensures Bare(true, v.entries[k]) == Bare(true, w.entries[k]) <==> Bare(false, v.entries[k]) == Bare(false, w.entries[k])
      {
        DefiniteKeys(if spec.ObjectType? then spec.attributes[k].kind else spec.element, v.entries[k], w.entries[k]);
      }
    }
  }

  /** Two values of the type that share a key although they differ in more than marks. */
  ghost predicate Confused(spec: Type, v: Value, w: Value)
  {
    Accepts(spec, v) && Accepts(spec, w) && Plain(v) == Plain(w) && Unmarked(v) != Unmarked(w)
  }

  /** Lists and dictionaries that differ at one place only are confused when that place is. */
  lemma ConfusedItems(spec: Type, items: seq<Value>, at: nat, v: Value, w: Value)
    requires at < |items| && Plain(v) == Plain(w) && Unmarked(v) != Unmarked(w)
    requires Accepts(spec, List(items[at := v], UNMARKED)) && Accepts(spec, List(items[at := w], UNMARKED))
    ensures Confused(spec, List(items[at := v], UNMARKED), List(items[at := w], UNMARKED))
  {
    hide Bare, Accepts;
    var a, b := List(items[at := v], UNMARKED), List(items[at := w], UNMARKED);
    BareItems(true, a, b);
    BareItems(false, a, b);
    assert a.items[at] == v && b.items[at] == w;
  }

  lemma ConfusedEntries(spec: Type, entries: map<string, Value>, at: string, v: Value, w: Value)
    requires at in entries && Plain(v) == Plain(w) && Unmarked(v) != Unmarked(w)
    requires Accepts(spec, Dict(entries[at := v], UNMARKED)) && Accepts(spec, Dict(entries[at := w], UNMARKED))
    ensures Confused(spec, Dict(entries[at := v], UNMARKED), Dict(entries[at := w], UNMARKED))
  {
    hide Bare, Accepts;
    var a, b := Dict(entries[at := v], UNMARKED), Dict(entries[at := w], UNMARKED);
    BareEntries(true, a, b);
    BareEntries(false, a, b);
    assert a.entries[at] == v && b.entries[at] == w;
  }

  function Nulls(count: nat): seq<Value>
  {
    seq(count, _ => Null(UNMARKED))
  }

  function NullEntries(keys: set<string>): map<string, Value>
  {
    map k | k in keys :: Null(UNMARKED)
  }

  lemma InItems(spec: Type, count: nat, at: nat, v: Value, w: Value)
    requires at < count && (spec.ListType? || spec.SetType? || (spec.TupleType? && |spec.components| == count))
    requires Confused(ItemType(spec, at), v, w)
    ensures Confused(spec, List(Nulls(count)[at := v], UNMARKED), List(Nulls(count)[at := w], UNMARKED))
  {
    hide Bare;
    ConfusedItems(spec, Nulls(count), at, v, w);
  }

  lemma InMap(element: Type, v: Value, w: Value)
    requires Confused(element, v, w)
    ensures Confused(MapType(element), Dict(NullEntries({""})["" := v], UNMARKED), Dict(NullEntries({""})["" := w], UNMARKED))
  {
    hide Bare;
    ConfusedEntries(MapType(element), NullEntries({""}), "", v, w);
  }

  lemma InObject(attributes: map<string, Attribute>, at: string, v: Value, w: Value)
    requires at in attributes && Confused(attributes[at].kind, v, w)
    ensures var nulls := NullEntries(attributes.Keys);
            Confused(ObjectType(attributes), Dict(nulls[at := v], UNMARKED), Dict(nulls[at := w], UNMARKED))
  {
    ObjectAccepts(attributes, at, v);
    ObjectAccepts(attributes, at, w);
    hide Bare, Accepts;
    ConfusedEntries(ObjectType(attributes), NullEntries(attributes.Keys), at, v, w);
  }

  lemma ObjectAccepts(attributes: map<string, Attribute>, at: string, v: Value)
    requires at in attributes && Accepts(attributes[at].kind, v)
    ensures Accepts(ObjectType(attributes), Dict(NullEntries(attributes.Keys)[at := v], UNMARKED))
  {
    var entries := NullEntries(attributes.Keys)[at := v];
    forall k | k in entries ensures k in attributes && Accepts(attributes[k].kind, entries[k]) {
    }
    assert entries.Keys == attributes.Keys;
  }

  /** Below any, a number and its digits are confused; null fills every other place. */
  lemma {:induction false} ConfusedBelowAny(spec: Type) returns (v: Value, w: Value)
    requires !Definite(spec)
    ensures Confused(spec, v, w)
    decreases spec
  {
    match spec
    case AnyType =>
      v, w := Number("1", UNMARKED), Value.Text("1", UNMARKED);
    case ObjectType(attributes) =>
      var at :| at in attributes && !Definite(attributes[at].kind);
      v, w := ConfusedBelowAny(attributes[at].kind);
      hide Confused;
      InObject(attributes, at, v, w);
      v, w := Dict(NullEntries(attributes.Keys)[at := v], UNMARKED), Dict(NullEntries(attributes.Keys)[at := w], UNMARKED);
    case MapType(element) =>
      v, w := ConfusedBelowAny(element);
      hide Confused;
      InMap(element, v, w);
      v, w := Dict(NullEntries({""})["" := v], UNMARKED), Dict(NullEntries({""})["" := w], UNMARKED);
    case TupleType(components) =>
      var at :| 0 <= at < |components| && !Definite(components[at]);
      v, w := ConfusedBelowAny(components[at]);
      hide Confused;
      InItems(spec, |components|, at, v, w);
      v, w := List(Nulls(|components|)[at := v], UNMARKED), List(Nulls(|components|)[at := w], UNMARKED);
    case ListType(element) =>
      v, w := ConfusedBelowAny(element);
      hide Confused;
      InItems(spec, 1, 0, v, w);
      v, w := List(Nulls(1)[0 := v], UNMARKED), List(Nulls(1)[0 := w], UNMARKED);
    case SetType(element) =>
      v, w := ConfusedBelowAny(element);
      hide Confused;
      InItems(spec, 1, 0, v, w);
      v, w := List(Nulls(1)[0 := v], UNMARKED), List(Nulls(1)[0 := w], UNMARKED);
    case _ =>
  }

  /** No two values of the type share a key although they differ in more than marks. */
  ghost predicate KeysTellApart(encode: Canon -> string, spec: Type)
  {
    forall v, w :: Accepts(spec, v) && Accepts(spec, w) && Key(encode, v) == Key(encode, w) ==> Unmarked(v) == Unmarked(w)
  }

  /** Keys tell the values of a type apart exactly when no part of the type is any. */
  lemma KeysTellApartExactly(encode: Canon -> string, spec: Type)
    requires Injective(encode)
    ensures KeysTellApart(encode, spec) <==> Definite(spec)
  {
    hide Unmarked, Plain, Accepts, Key, Injective;
    if Definite(spec) {
      forall v, w | Accepts(spec, v) && Accepts(spec, w) && Key(encode, v) == Key(encode, w) ensures Unmarked(v) == Unmarked(w) {
        SharesKeyExactly(encode, v, w);
        DefiniteKeys(spec, v, w);
      }
    } else {
      var v, w := ConfusedBelowAny(spec);
      SharesKeyExactly(encode, v, w);
    }
  }

  /** A set over a definite type keeps every item, up to marks. */
  lemma SetLosesOnlyMarks(encode: Canon -> string, element: Type, xs: seq<Value>, marks: Marks, item: Value)
    requires Injective(encode) && Definite(element)
    requires Normalize(encode, SetType(element), List(xs, marks)).Ok?
    requires NormalizeItems(encode, SetType(element), xs, |xs|).Ok?
    requires item in NormalizeItems(encode, SetType(element), xs, |xs|).value
    ensures var a := Normalize(encode, SetType(element), List(xs, marks)).value;
            a.List? && exists kept :: kept in a.items && Unmarked(kept) == Unmarked(item)
  {
    hide Normalize, NormalizeItems, Key, Unmarked, Accepts, FirstWith, Injective, KeysTellApart, Keys;
    var key := Key(encode, item);
    var p := NormalizeItems(encode, SetType(element), xs, |xs|).value;
    SetKeepsFirst(encode, element, xs, marks, key);
    var items := Normalize(encode, SetType(element), List(xs, marks)).value.items;
    FirstWithSound(encode, p, key);
    FirstWithSound(encode, items, key);
    HasKey(encode, p, item);
    var kept := FirstWith(encode, items, key).value;
    assert kept in items && Key(encode, kept) == key && kept in p;
    NormalisedItemAccepted(encode, element, xs, item);
    NormalisedItemAccepted(encode, element, xs, kept);
    KeysTellApartExactly(encode, element);
    Told(encode, element, kept, item);
  }

  lemma HasKey(encode: Canon -> string, items: seq<Value>, v: Value)
    requires v in items
    ensures Key(encode, v) in Keys(encode, items)
  {
  }

  lemma Told(encode: Canon -> string, spec: Type, v: Value, w: Value)
    requires KeysTellApart(encode, spec) && Accepts(spec, v) && Accepts(spec, w) && Key(encode, v) == Key(encode, w)
    ensures Unmarked(v) == Unmarked(w)
  {
  }

  /** A normalised item is acceptable again. */
  lemma NormalisedItemAccepted(encode: Canon -> string, element: Type, xs: seq<Value>, v: Value)
    requires NormalizeItems(encode, SetType(element), xs, |xs|).Ok?
    requires v in NormalizeItems(encode, SetType(element), xs, |xs|).value
    ensures Accepts(element, v)
  {
    hide Normalize, Accepts;
    ItemsAre(encode, SetType(element), xs, |xs|);
    ItemTypeIs(element);
    var p := NormalizeItems(encode, SetType(element), xs, |xs|).value;
    var i :| 0 <= i < |p| && p[i] == v;
    NormalizeIdempotent(encode, element, xs[i]);
    AcceptedExactly(encode, element, v);
  }
}
