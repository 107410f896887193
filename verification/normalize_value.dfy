/** normalizeValueForType as it runs: loops over items, sorted keys and attributes. */
module NormalizeValue {
  import opened Addresses
  import opened Model
  import opened VariableTypes
  import opened SetNormalForm
  import opened TypedValues
  import opened ValueParts

  /** The error that is reported: at the same place, and of several unknown attributes one. */
  predicate Reports(error: TypeError, reported: TypeError)
    decreases error
  {
    match error
    case Unsupported(names) => reported.UnsupportedOne? && reported.name in names
    case Inside(place, inner) => reported.Inside? && reported.place == place && Reports(inner, reported.error)
    case _ => reported == error
  }

  predicate Agrees<T(==)>(wanted: Result<T, TypeError>, r: Result<T, TypeError>)
  {
    if wanted.Ok? then r == wanted else r.Err? && Reports(wanted.error, r.error)
  }

  /** What is reported is a fault too. */
  lemma {:induction false} ReportsFault(spec: Type, value: Value, error: TypeError, reported: TypeError)
    requires Fault(spec, value, error) && Reports(error, reported)
    ensures Fault(spec, value, reported)
    decreases error
  {
    hide FineBefore, StandsAt;
    if error.Inside? {
      var inner, part :| StandsAt(spec, value, error.place, inner, part) && Fault(inner, part, error.error);
      ReportsFault(inner, part, error.error, reported.error);
    }
  }

  lemma {:induction false} ItemsStop(encode: Canon -> string, spec: Type, items: seq<Value>, n: nat)
    requires HasItems(spec, |items|) && n <= |items| && NormalizeItems(encode, spec, items, n).Err?
    ensures NormalizeItems(encode, spec, items, |items|) == NormalizeItems(encode, spec, items, n)
    decreases |items| - n
  {
    hide Normalize;
    if n < |items| { ItemsStop(encode, spec, items, n + 1); }
  }

  lemma {:induction false} EntriesStop(encode: Canon -> string, spec: Type, entries: map<string, Value>,
                                       keys: seq<string>, n: nat)
    requires spec.MapType? && n <= |keys| && NormalizeEntries(encode, spec, entries, keys[..n]).Err?
    ensures NormalizeEntries(encode, spec, entries, keys) == NormalizeEntries(encode, spec, entries, keys[..n])
    decreases |keys| - n
  {
    hide Normalize;
    if n < |keys| {
      assert keys[..n + 1][..n] == keys[..n];
      EntriesStop(encode, spec, entries, keys, n + 1);
    } else {
      assert keys[..n] == keys;
    }
  }

  lemma {:induction false} AttributesStop(encode: Canon -> string, spec: Type, entries: map<string, Value>,
                                          names: seq<string>, n: nat)
    requires spec.ObjectType? && n <= |names| && NormalizeAttributes(encode, spec, entries, names[..n]).Err?
    ensures NormalizeAttributes(encode, spec, entries, names) == NormalizeAttributes(encode, spec, entries, names[..n])
    decreases |names| - n
  {
    hide NormalizeAttribute;
    if n < |names| {
      assert names[..n + 1][..n] == names[..n];
      AttributesStop(encode, spec, entries, names, n + 1);
    } else {
      assert names[..n] == names;
    }
  }

  lemma EntriesNext(encode: Canon -> string, spec: Type, entries: map<string, Value>, keys: seq<string>, i: nat)
    requires spec.MapType? && i < |keys| && keys[i] in entries && NormalizeEntries(encode, spec, entries, keys[..i]).Ok?
    ensures NormalizeEntries(encode, spec, entries, keys[..i + 1]) ==
            var r := Normalize(encode, spec.element, entries[keys[i]]);
            if r.Err? then Err(Inside(AtKey(keys[i]), r.error)) else Ok(NormalizeEntries(encode, spec, entries, keys[..i]).value[keys[i] := r.value])
  {
    hide Normalize;
    assert keys[..i + 1][..i] == keys[..i];
  }

  lemma AttributesNext(encode: Canon -> string, spec: Type, entries: map<string, Value>, names: seq<string>, i: nat)
    requires spec.ObjectType? && i < |names| && names[i] in spec.attributes && NormalizeAttributes(encode, spec, entries, names[..i]).Ok?
    ensures NormalizeAttributes(encode, spec, entries, names[..i + 1]) ==
            var r := NormalizeAttribute(encode, spec.attributes[names[i]], names[i], entries);
            if r.Err? then Err(r.error) else Ok(NormalizeAttributes(encode, spec, entries, names[..i]).value[names[i] := r.value])
  {
    hide NormalizeAttribute;
    assert names[..i + 1][..i] == names[..i];
  }

  method ItemsLoop(encode: Canon -> string, spec: Type, items: seq<Value>) returns (r: Result<seq<Value>, TypeError>)
    requires HasItems(spec, |items|)
    ensures Agrees(NormalizeItems(encode, spec, items, |items|), r)
    decreases spec, 0
  {
    hide Normalize;
    var out: seq<Value> := [];
    for i := 0 to |items|
      invariant NormalizeItems(encode, spec, items, i) == Ok(out)
    {
      var item := NormalizeTyped(encode, ItemType(spec, i), items[i]);
      if item.Err? {
        ItemsStop(encode, spec, items, i + 1);
        return Err(Inside(AtIndex(i), item.error));
      }
      out := out + [item.value];
    }
    r := Ok(out);
  }

  method EntriesLoop(encode: Canon -> string, spec: Type,
                     entries: map<string, Value>) returns (r: Result<map<string, Value>, TypeError>)
    requires spec.MapType?
    ensures Agrees(NormalizeEntries(encode, spec, entries, SortedSeq(entries.Keys)), r)
    decreases spec, 0
  {
    hide Normalize, NormalizeEntries;
    var keys := SortedKeys(entries.Keys);
    assert forall k :: k in keys <==> k in Elements(keys);
    var out: map<string, Value> := map[];
    NothingYet(encode, spec, entries);
    for i := 0 to |keys|
      invariant NormalizeEntries(encode, spec, entries, keys[..i]) == Ok(out)
    {
      assert keys[i] in keys;
      EntriesNext(encode, spec, entries, keys, i);
      var item := NormalizeTyped(encode, spec.element, entries[keys[i]]);
      if item.Err? {
        EntriesStop(encode, spec, entries, keys, i + 1);
        return Err(Inside(AtKey(keys[i]), item.error));
      }
      out := out[keys[i] := item.value];
    }
    assert keys[..|keys|] == keys;
    r := Ok(out);
  }

  lemma NothingYet(encode: Canon -> string, spec: Type, entries: map<string, Value>)
    ensures spec.MapType? ==> NormalizeEntries(encode, spec, entries, []) == Ok(map[])
    ensures spec.ObjectType? ==> NormalizeAttributes(encode, spec, entries, []) == Ok(map[])
  {
  }

  /** One attribute of an object: given, defaulted, optional, or missing. */
  method AttributeOf(encode: Canon -> string, attribute: Attribute, name: string, entries: map<string, Value>)
    returns (item: Result<Value, TypeError>)
    ensures Agrees(NormalizeAttribute(encode, attribute, name, entries), item)
    decreases attribute, 2
  {
    hide Normalize;
    if name !in entries {
      if attribute.default.Some? {
        item := NormalizeTyped(encode, attribute.kind, attribute.default.value);
        item := At(AtAttribute(name), item);
      } else if attribute.optional {
        item := Ok(Null(UNMARKED));
      } else {
        item := Err(MissingAttribute(name));
      }
    } else {
      item := NormalizeTyped(encode, attribute.kind, entries[name]);
      item := At(AtAttribute(name), item);
    }
  }

  method AttributesLoop(encode: Canon -> string, spec: Type,
                        entries: map<string, Value>) returns (r: Result<map<string, Value>, TypeError>)
    requires spec.ObjectType?
    ensures Agrees(NormalizeAttributes(encode, spec, entries, SortedSeq(spec.attributes.Keys)), r)
    decreases spec, 0
  {
    hide Normalize, NormalizeAttributes, NormalizeAttribute;
    var names := SortedKeys(spec.attributes.Keys);
    assert forall k :: k in names <==> k in Elements(names);
    var out: map<string, Value> := map[];
    NothingYet(encode, spec, entries);
    for i := 0 to |names|
      invariant NormalizeAttributes(encode, spec, entries, names[..i]) == Ok(out)
    {
      var name := names[i];
      assert name in names;
      AttributesNext(encode, spec, entries, names, i);
      var item := AttributeOf(encode, spec.attributes[name], name, entries);
      if item.Err? {
        AttributesStop(encode, spec, entries, names, i + 1);
        return Err(item.error);
      }
      out := out[name := item.value];
    }
    assert names[..|names|] == names;
    r := Ok(out);
  }

  /** normalizeValueForType: the normalisation or its first error, each said of the parts of the value that was given. */
  method NormalizeValueForType(encode: Canon -> string, spec: Type, value: Value) returns (r: Result<Value, TypeError>)
    ensures r.Ok? <==> Accepts(spec, value)
    ensures r.Ok? ==> PartsOf(encode, spec, value, r.value)
    ensures r.Err? ==> Fault(spec, value, r.error)
  {
    hide *;
    r := NormalizeTyped(encode, spec, value);
    AgreesMeans(encode, spec, value, r);
  }

  lemma AgreesMeans(encode: Canon -> string, spec: Type, value: Value, r: Result<Value, TypeError>)
    requires Agrees(Normalize(encode, spec, value), r)
    ensures r.Ok? <==> Accepts(spec, value)
    ensures r.Ok? ==> PartsOf(encode, spec, value, r.value)
    ensures r.Err? ==> Fault(spec, value, r.error)
  {
    hide Normalize, Accepts, PartsOf, Fault, Reports;
    AcceptedExactly(encode, spec, value);
    if r.Ok? {
      ResultParts(encode, spec, value);
    } else {
      ErrorsAreFaults(encode, spec, value);
      ReportsFault(spec, value, Normalize(encode, spec, value).error, r.error);
    }
  }

  /** Its recursion. */
  method NormalizeTyped(encode: Canon -> string, spec: Type, value: Value) returns (r: Result<Value, TypeError>)
    ensures Agrees(Normalize(encode, spec, value), r)
    decreases spec, 1
  {
    hide NormalizeItems, NormalizeEntries, NormalizeAttributes, SortByKey, Dedupe;
    if value.Null? {
      return Ok(value);
    }
    match spec {
      case AnyType => return Ok(value);
      case TextType => return if value.Text? then Ok(value) else Err(WrongKind(spec, value));
      case NumberType => return if value.Number? then Ok(value) else Err(WrongKind(spec, value));
      case BoolType => return if value.Bool? then Ok(value) else Err(WrongKind(spec, value));
      case MapType(_) =>
        if !value.Dict? {
          return Err(WrongKind(spec, value));
        }
        var entries := EntriesLoop(encode, spec, value.entries);
        return if entries.Err? then Err(entries.error) else Ok(value.(entries := entries.value));
      case ObjectType(attributes) =>
        if !value.Dict? {
          return Err(WrongKind(spec, value));
        }
        if !(value.entries.Keys <= attributes.Keys) {
          var name :| name in value.entries.Keys && name !in attributes;
          return Err(UnsupportedOne(name));
        }
        var entries := AttributesLoop(encode, spec, value.entries);
        return if entries.Err? then Err(entries.error) else Ok(value.(entries := entries.value));
      case _ =>
    }
    if !value.List? {
      return Err(WrongKind(spec, value));
    }
    if spec.TupleType? && |value.items| != |spec.components| {
      return Err(WrongLength(|spec.components|, |value.items|));
    }
    var items := ItemsLoop(encode, spec, value.items);
    if items.Err? {
      return Err(items.error);
    }
    if spec.SetType? {
      var unique := SortAndDedupe(encode, items.value);
      return Ok(value.(items := unique));
    }
    return Ok(value.(items := items.value));
  }
}
