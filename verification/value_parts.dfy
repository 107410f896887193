/** What a normalised value holds, part by part, and what an error points at: said of the value that was given. */
module ValueParts {
  import opened Addresses
  import opened Model
  import opened VariableTypes
  import opened SetNormalForm
  import opened TypedValues

  // ---- results ----

  /** One attribute of a result: the given value normalised, or else the default normalised, or else null. */
  ghost predicate AttributePart(encode: Canon -> string, attribute: Attribute, name: string, entries: map<string, Value>,
                                part: Value)
  {
    if name in entries then Normalize(encode, attribute.kind, entries[name]) == Ok(part)
    else if attribute.default.Some? then Normalize(encode, attribute.kind, attribute.default.value) == Ok(part)
    else attribute.optional && part == Null(UNMARKED)
  }

  /** The items of a set: by rising key, each key of a normalised item once, with the first such item. */
  ghost predicate SetParts(encode: Canon -> string, element: Type, items: seq<Value>, parts: seq<Value>)
  {
    && (forall i :: 0 <= i < |items| ==> Normalize(encode, element, items[i]).Ok?)
    && KeysRise(encode, parts)
    && (forall i :: 0 <= i < |items| ==> Key(encode, Normalize(encode, element, items[i]).value) in Keys(encode, parts))
    && (forall j :: 0 <= j < |parts| ==> IsFirstOfItsKey(encode, element, items, parts[j]))
  }

  /** The part is the i-th item normalised, and no item before that has its key. */
  ghost predicate FirstItem(encode: Canon -> string, element: Type, items: seq<Value>, i: int, part: Value)
  {
    && 0 <= i < |items| && Normalize(encode, element, items[i]) == Ok(part)
    && forall h :: 0 <= h < i ==>
         Normalize(encode, element, items[h]).Ok? && Key(encode, Normalize(encode, element, items[h]).value) != Key(encode, part)
  }

  ghost predicate IsFirstOfItsKey(encode: Canon -> string, element: Type, items: seq<Value>, part: Value)
  {
    exists i :: FirstItem(encode, element, items, i, part)
  }

  /** Each part of a result is the normalisation of the same part of the value; the marks stay. */
  ghost predicate PartsOf(encode: Canon -> string, spec: Type, value: Value, r: Value)
  {
    if value.Null? then r == value
    else
      match spec
      case ListType(element) =>
        && value.List? && r.List? && r.marks == value.marks && |r.items| == |value.items|
        && forall i :: 0 <= i < |r.items| ==> Normalize(encode, element, value.items[i]) == Ok(r.items[i])
      case SetType(element) =>
        value.List? && r.List? && r.marks == value.marks && SetParts(encode, element, value.items, r.items)
      case TupleType(components) =>
        && value.List? && r.List? && r.marks == value.marks && |r.items| == |value.items| == |components|
        && forall i :: 0 <= i < |components| ==> Normalize(encode, components[i], value.items[i]) == Ok(r.items[i])
      case MapType(element) =>
        && value.Dict? && r.Dict? && r.marks == value.marks && r.entries.Keys == value.entries.Keys
        && forall k :: k in value.entries ==> Normalize(encode, element, value.entries[k]) == Ok(r.entries[k])
      case ObjectType(attributes) =>
        && value.Dict? && r.Dict? && r.marks == value.marks && r.entries.Keys == attributes.Keys
        && forall k :: k in attributes ==> AttributePart(encode, attributes[k], k, value.entries, r.entries[k])
      case _ => r == value
  }

  /** A result is put together from the normalised parts of the value, defaults standing in for attributes not given. */
  lemma ResultParts(encode: Canon -> string, spec: Type, value: Value)
    requires Normalize(encode, spec, value).Ok?
    ensures PartsOf(encode, spec, value, Normalize(encode, spec, value).value)
  {
    hide NormalizeItems, NormalizeEntries, NormalizeAttributes, SortByKey, Dedupe, SetParts, AttributePart;
    if !value.Null? {
      match spec {
        case ListType(_) => ItemsAre(encode, spec, value.items, |value.items|);
        case SetType(element) => SetHasParts(encode, element, value.items, value.marks);
        case TupleType(_) => ItemsAre(encode, spec, value.items, |value.items|);
        case MapType(_) =>
          EntriesAre(encode, spec, value.entries, SortedSeq(value.entries.Keys));
          SortedSeqMembers(value.entries.Keys);
        case ObjectType(_) => AttributesHaveParts(encode, spec, value.entries);
        case _ =>
      }
    }
  }

  lemma AttributesHaveParts(encode: Canon -> string, spec: Type, entries: map<string, Value>)
    requires spec.ObjectType? && NormalizeAttributes(encode, spec, entries, SortedSeq(spec.attributes.Keys)).Ok?
    ensures var r := NormalizeAttributes(encode, spec, entries, SortedSeq(spec.attributes.Keys)).value;
            r.Keys == spec.attributes.Keys &&
            forall k :: k in spec.attributes ==> AttributePart(encode, spec.attributes[k], k, entries, r[k])
  {
    hide Normalize, NormalizeAttributes;
    AttributesAre(encode, spec, entries, SortedSeq(spec.attributes.Keys));
    SortedSeqMembers(spec.attributes.Keys);
  }

  lemma {:induction false} FirstWithAt(encode: Canon -> string, items: seq<Value>, key: string) returns (i: nat)
    requires FirstWith(encode, items, key).Some?
    ensures i < |items| && FirstWith(encode, items, key) == Some(items[i]) && Key(encode, items[i]) == key
    ensures forall h :: 0 <= h < i ==> Key(encode, items[h]) != key
  {
    hide Key;
    var n := |items| - 1;
    if FirstWith(encode, items[..n], key).Some? {
      i := FirstWithAt(encode, items[..n], key);
      assert forall h :: 0 <= h < i ==> items[..n][h] == items[h];
    } else {
      i := n;
      FirstWithSound(encode, items[..n], key);
      forall h | 0 <= h < n ensures Key(encode, items[h]) != key {
        assert items[h] in items[..n];
      }
    }
  }

  lemma SetHasParts(encode: Canon -> string, element: Type, items: seq<Value>, marks: Marks)
    requires Normalize(encode, SetType(element), List(items, marks)).Ok?
    ensures var r := Normalize(encode, SetType(element), List(items, marks)).value;
            r.List? && r.marks == marks && SetParts(encode, element, items, r.items)
  {
    hide NormalizeItems, SortByKey, Dedupe, Key, KeysRise, SetParts;
    SetResult(encode, element, items, marks);
    ItemsAre(encode, SetType(element), items, |items|);
    ItemTypeIs(element);
    var p := NormalizeItems(encode, SetType(element), items, |items|).value;
    NormalFormFacts(encode, p);
    hide Normalize;
    SetFromForm(encode, element, items, p, NormalForm(encode, p));
  }

  lemma SetFromForm(encode: Canon -> string, element: Type, items: seq<Value>, p: seq<Value>, form: seq<Value>)
    requires |p| == |items| && forall i :: 0 <= i < |items| ==> Normalize(encode, element, items[i]) == Ok(p[i])
    requires KeysRise(encode, form) && forall key :: FirstWith(encode, form, key) == FirstWith(encode, p, key)
    ensures SetParts(encode, element, items, form)
  {
    hide Normalize, Key, KeysRise, FirstWith;
    forall i | 0 <= i < |items| ensures Key(encode, p[i]) in Keys(encode, form) {
      FirstWithSound(encode, p, Key(encode, p[i]));
      assert p[i] in p;
      FirstWithSound(encode, form, Key(encode, p[i]));
    }
    forall j | 0 <= j < |form| ensures IsFirstOfItsKey(encode, element, items, form[j]) {
      FirstWithSound(encode, form, Key(encode, form[j]));
      assert form[j] in form;
      OneOfEachKey(encode, form, j);
      var i := FirstWithAt(encode, p, Key(encode, form[j]));
      FirstHere(encode, element, items, p, i, form[j]);
    }
  }

  lemma FirstHere(encode: Canon -> string, element: Type, items: seq<Value>, p: seq<Value>, i: nat, part: Value)
    requires |p| == |items| && forall i :: 0 <= i < |items| ==> Normalize(encode, element, items[i]) == Ok(p[i])
    requires i < |p| && p[i] == part && forall h :: 0 <= h < i ==> Key(encode, p[h]) != Key(encode, part)
    ensures IsFirstOfItsKey(encode, element, items, part)
  {
    hide Normalize, Key;
    assert FirstItem(encode, element, items, i, part);
  }

  lemma OneOfEachKey(encode: Canon -> string, form: seq<Value>, j: nat)
    requires KeysRise(encode, form) && j < |form|
    ensures FirstWith(encode, form, Key(encode, form[j])) == Some(form[j])
  {
    hide FirstWith, Key;
    FirstWithSound(encode, form, Key(encode, form[j]));
    assert form[j] in form;
    var i := FirstWithAt(encode, form, Key(encode, form[j]));
    LessTrichotomy(Key(encode, form[j]), Key(encode, form[j]));
  }

  // ---- errors ----

  predicate RightKind(spec: Type, value: Value)
  {
    match spec
    case AnyType => true
    case TextType => value.Text?
    case NumberType => value.Number?
    case BoolType => value.Bool?
    case ListType(_) => value.List?
    case SetType(_) => value.List?
    case TupleType(_) => value.List?
    case MapType(_) => value.Dict?
    case ObjectType(_) => value.Dict?
  }

  ghost predicate AttributeFine(attribute: Attribute, name: string, entries: map<string, Value>)
  {
    if name in entries then Accepts(attribute.kind, entries[name])
    else if attribute.default.Some? then Accepts(attribute.kind, attribute.default.value)
    else attribute.optional
  }

  /** Everything before the place, in the order of items, keys or attributes, is acceptable. */
  ghost predicate FineBefore(spec: Type, value: Value, place: Place)
  {
    match place
    case AtIndex(i) =>
      && value.List? && HasItems(spec, |value.items|) && i < |value.items|
      && forall j :: 0 <= j < i ==> Accepts(ItemType(spec, j), value.items[j])
    case AtKey(k) =>
      && value.Dict? && spec.MapType? && k in value.entries
      && forall c :: c in value.entries && Less(c, k) ==> Accepts(spec.element, value.entries[c])
    case AtAttribute(k) =>
      && value.Dict? && spec.ObjectType? && k in spec.attributes && value.entries.Keys <= spec.attributes.Keys
      && forall c :: c in spec.attributes && Less(c, k) ==> AttributeFine(spec.attributes[c], c, value.entries)
  }

  /** The type and the value that stand at a place: of an attribute that was not given, its default. */
  ghost predicate StandsAt(spec: Type, value: Value, place: Place, inner: Type, part: Value)
    requires FineBefore(spec, value, place)
  {
    match place
    case AtIndex(i) => inner == ItemType(spec, i) && part == value.items[i]
    case AtKey(k) => inner == spec.element && part == value.entries[k]
    case AtAttribute(k) =>
      && inner == spec.attributes[k].kind
      && if k in value.entries then part == value.entries[k] else spec.attributes[k].default == Some(part)
  }

  /** What an error reports is so, and it is the first thing wrong. */
  ghost predicate Fault(spec: Type, value: Value, error: TypeError)
    decreases error
  {
    && !value.Null?
    && match error
       case WrongKind(want, got) => want == spec && got == value && !RightKind(spec, value)
       case WrongLength(required, given) =>
         && spec.TupleType? && value.List? && required == |spec.components| && given == |value.items| && required != given
       case Unsupported(names) =>
         && spec.ObjectType? && value.Dict? && names != {}
         && forall k :: k in names <==> k in value.entries && k !in spec.attributes
       case UnsupportedOne(name) => spec.ObjectType? && value.Dict? && name in value.entries && name !in spec.attributes
       case MissingAttribute(name) =>
         && FineBefore(spec, value, AtAttribute(name)) && name !in value.entries
         && spec.attributes[name].default.None? && !spec.attributes[name].optional
       case Inside(place, e) =>
         && FineBefore(spec, value, place)
         && exists inner, part :: StandsAt(spec, value, place, inner, part) && Fault(inner, part, e)
  }

  lemma {:induction false} FirstBadItem(encode: Canon -> string, spec: Type, items: seq<Value>, n: nat) returns (i: nat)
    requires HasItems(spec, |items|) && n <= |items| && NormalizeItems(encode, spec, items, n).Err?
    ensures i < n && Normalize(encode, ItemType(spec, i), items[i]).Err?
    ensures forall j :: 0 <= j < i ==> Normalize(encode, ItemType(spec, j), items[j]).Ok?
    ensures NormalizeItems(encode, spec, items, n).error == Inside(AtIndex(i), Normalize(encode, ItemType(spec, i), items[i]).error)
    decreases n
  {
    hide Normalize;
    if NormalizeItems(encode, spec, items, n - 1).Err? {
      i := FirstBadItem(encode, spec, items, n - 1);
    } else {
      i := n - 1;
      ItemsAre(encode, spec, items, n - 1);
    }
  }

  lemma {:induction false} FirstBadEntry(encode: Canon -> string, spec: Type, entries: map<string, Value>,
                                         keys: seq<string>)
    returns (i: nat)
    requires spec.MapType? && (forall k :: k in keys ==> k in entries) && NormalizeEntries(encode, spec, entries, keys).Err?
    ensures i < |keys| && Normalize(encode, spec.element, entries[keys[i]]).Err?
    ensures forall j :: 0 <= j < i ==> Normalize(encode, spec.element, entries[keys[j]]).Ok?
    ensures NormalizeEntries(encode, spec, entries, keys).error == Inside(AtKey(keys[i]), Normalize(encode, spec.element, entries[keys[i]]).error)
    decreases |keys|
  {
    hide Normalize;
    var n := |keys| - 1;
    if NormalizeEntries(encode, spec, entries, keys[..n]).Err? {
      i := FirstBadEntry(encode, spec, entries, keys[..n]);
      assert forall j :: 0 <= j < n ==> keys[..n][j] == keys[j];
    } else {
      i := n;
      EntriesAre(encode, spec, entries, keys[..n]);
      forall j | 0 <= j < n ensures Normalize(encode, spec.element, entries[keys[j]]).Ok? {
        assert keys[j] in keys[..n];
      }
    }
  }

  lemma {:induction false} FirstBadAttribute(encode: Canon -> string, spec: Type, entries: map<string, Value>,
                                             names: seq<string>) returns (i: nat)
    requires spec.ObjectType? && (forall k :: k in names ==> k in spec.attributes)
    requires NormalizeAttributes(encode, spec, entries, names).Err?
    ensures i < |names| && names[i] in spec.attributes
    ensures NormalizeAttribute(encode, spec.attributes[names[i]], names[i], entries).Err?
    ensures forall j :: 0 <= j < i ==>
              names[j] in spec.attributes && NormalizeAttribute(encode, spec.attributes[names[j]], names[j], entries).Ok?
    ensures NormalizeAttributes(encode, spec, entries, names).error ==
            NormalizeAttribute(encode, spec.attributes[names[i]], names[i], entries).error
    decreases |names|
  {
    hide NormalizeAttribute;
    var n := |names| - 1;
    if NormalizeAttributes(encode, spec, entries, names[..n]).Err? {
      i := FirstBadAttribute(encode, spec, entries, names[..n]);
      assert forall j :: 0 <= j < n ==> names[..n][j] == names[j];
    } else {
      i := n;
      AttributesAre(encode, spec, entries, names[..n]);
      forall j | 0 <= j < n
        ensures names[j] in spec.attributes && NormalizeAttribute(encode, spec.attributes[names[j]], names[j], entries).Ok?
      {
        assert names[j] in names[..n];
      }
    }
  }

  lemma EarlierKey(keys: set<string>, i: nat, c: string) returns (j: nat)
    requires i < |SortedSeq(keys)| && c in keys && Less(c, SortedSeq(keys)[i])
    ensures j < i && SortedSeq(keys)[j] == c
  {
    SortedSeqMembers(keys);
    var s := SortedSeq(keys);
    var k :| 0 <= k < |s| && s[k] == c;
    j := k;
    LessTrichotomy(c, s[i]);
  }

  lemma AttributeFineExactly(encode: Canon -> string, attribute: Attribute, name: string, entries: map<string, Value>)
    ensures NormalizeAttribute(encode, attribute, name, entries).Ok? <==> AttributeFine(attribute, name, entries)
  {
    hide Normalize, Accepts;
    if name in entries {
      AcceptedExactly(encode, attribute.kind, entries[name]);
    } else if attribute.default.Some? {
      AcceptedExactly(encode, attribute.kind, attribute.default.value);
    }
  }

  /** Every error of the normalisation is a fault of the value. */
  lemma {:induction false} ErrorsAreFaults(encode: Canon -> string, spec: Type, value: Value)
    requires Normalize(encode, spec, value).Err?
    ensures Fault(spec, value, Normalize(encode, spec, value).error)
    decreases spec, 1
  {
    hide NormalizeItems, NormalizeEntries, NormalizeAttributes, FineBefore;
    match spec {
      case ListType(_) => if value.List? { ItemFault(encode, spec, value); }
      case SetType(_) => if value.List? { ItemFault(encode, spec, value); }
      case TupleType(components) => if value.List? && |value.items| == |components| { ItemFault(encode, spec, value); }
      case MapType(_) => if value.Dict? { EntryFault(encode, spec, value); }
      case ObjectType(attributes) =>
        if value.Dict? {
          if value.entries.Keys <= attributes.Keys {
            AttributeFault(encode, spec, value);
          } else {
            var k :| k in value.entries.Keys && k !in attributes.Keys;
            assert k in value.entries.Keys - attributes.Keys;
          }
        }
      case _ =>
    }
  }

  lemma {:induction false} ItemFault(encode: Canon -> string, spec: Type, value: Value)
    requires value.List? && HasItems(spec, |value.items|) && NormalizeItems(encode, spec, value.items, |value.items|).Err?
    ensures Fault(spec, value, NormalizeItems(encode, spec, value.items, |value.items|).error)
    decreases spec, 0
  {
    hide Normalize, Accepts;
    var i := FirstBadItem(encode, spec, value.items, |value.items|);
    forall j | 0 <= j < i ensures Accepts(ItemType(spec, j), value.items[j]) {
      AcceptedExactly(encode, ItemType(spec, j), value.items[j]);
    }
    ErrorsAreFaults(encode, ItemType(spec, i), value.items[i]);
    assert StandsAt(spec, value, AtIndex(i), ItemType(spec, i), value.items[i]);
  }

  lemma {:induction false} EntryFault(encode: Canon -> string, spec: Type, value: Value)
    requires value.Dict? && spec.MapType? && NormalizeEntries(encode, spec, value.entries, SortedSeq(value.entries.Keys)).Err?
    ensures Fault(spec, value, NormalizeEntries(encode, spec, value.entries, SortedSeq(value.entries.Keys)).error)
    decreases spec, 0
  {
    hide Normalize, Accepts, NormalizeEntries;
    var keys := SortedSeq(value.entries.Keys);
    SortedSeqMembers(value.entries.Keys);
    var i := FirstBadEntry(encode, spec, value.entries, keys);
    assert keys[i] in keys;
    forall c | c in value.entries && Less(c, keys[i]) ensures Accepts(spec.element, value.entries[c]) {
      var j := EarlierKey(value.entries.Keys, i, c);
      AcceptedExactly(encode, spec.element, value.entries[c]);
    }
    ErrorsAreFaults(encode, spec.element, value.entries[keys[i]]);
    assert StandsAt(spec, value, AtKey(keys[i]), spec.element, value.entries[keys[i]]);
  }

  lemma {:induction false} AttributeFault(encode: Canon -> string, spec: Type, value: Value)
    requires value.Dict? && spec.ObjectType? && value.entries.Keys <= spec.attributes.Keys
    requires NormalizeAttributes(encode, spec, value.entries, SortedSeq(spec.attributes.Keys)).Err?
    ensures Fault(spec, value, NormalizeAttributes(encode, spec, value.entries, SortedSeq(spec.attributes.Keys)).error)
    decreases spec, 0
  {
    hide Normalize, Accepts, NormalizeAttributes, NormalizeAttribute, AttributeFine;
    var names := SortedSeq(spec.attributes.Keys);
    SortedSeqMembers(spec.attributes.Keys);
    var i := FirstBadAttribute(encode, spec, value.entries, names);
    var name := names[i];
    forall c | c in spec.attributes && Less(c, name) ensures AttributeFine(spec.attributes[c], c, value.entries) {
      var j := EarlierKey(spec.attributes.Keys, i, c);
      AttributeFineExactly(encode, spec.attributes[c], c, value.entries);
    }
    AttributeErrorIs(encode, spec, value, name);
    assert FineBefore(spec, value, AtAttribute(name));
    AttributeStands(spec, value, name);
    hide FineBefore, StandsAt;
    var attribute := spec.attributes[name];
    if name in value.entries {
      ErrorsAreFaults(encode, attribute.kind, value.entries[name]);
      FaultInside(spec, value, AtAttribute(name), attribute.kind, value.entries[name],
                  Normalize(encode, attribute.kind, value.entries[name]).error);
    } else if attribute.default.Some? {
      ErrorsAreFaults(encode, attribute.kind, attribute.default.value);
      FaultInside(spec, value, AtAttribute(name), attribute.kind, attribute.default.value,
                  Normalize(encode, attribute.kind, attribute.default.value).error);
    }
  }

  lemma AttributeStands(spec: Type, value: Value, name: string)
    requires FineBefore(spec, value, AtAttribute(name))
    ensures name in value.entries ==> StandsAt(spec, value, AtAttribute(name), spec.attributes[name].kind, value.entries[name])
    ensures name !in value.entries && spec.attributes[name].default.Some? ==>
              StandsAt(spec, value, AtAttribute(name), spec.attributes[name].kind, spec.attributes[name].default.value)
  {
  }

  lemma FaultInside(spec: Type, value: Value, place: Place, inner: Type, part: Value, error: TypeError)
    requires FineBefore(spec, value, place) && StandsAt(spec, value, place, inner, part) && Fault(inner, part, error)
    ensures Fault(spec, value, Inside(place, error))
  {
    assert !value.Null?;
    hide FineBefore, StandsAt;
  }

  lemma AttributeErrorIs(encode: Canon -> string, spec: Type, value: Value, name: string)
    requires value.Dict? && spec.ObjectType? && name in spec.attributes
    requires NormalizeAttribute(encode, spec.attributes[name], name, value.entries).Err?
    ensures var attribute := spec.attributes[name];
            NormalizeAttribute(encode, attribute, name, value.entries).error ==
            if name in value.entries then Inside(AtAttribute(name), Normalize(encode, attribute.kind, value.entries[name]).error)
            else if attribute.default.Some?
            then Inside(AtAttribute(name), Normalize(encode, attribute.kind, attribute.default.value).error)
            else MissingAttribute(name)
    ensures var attribute := spec.attributes[name];
            if name in value.entries then Normalize(encode, attribute.kind, value.entries[name]).Err?
            else attribute.default.Some? ==> Normalize(encode, attribute.kind, attribute.default.value).Err?
    ensures name !in value.entries && spec.attributes[name].default.None? ==> !spec.attributes[name].optional
  {
    hide Normalize;
  }
}
