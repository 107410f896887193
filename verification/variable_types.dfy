/** Typed variable values: the type-directed normalisation, its fixed points, and the canonical form of sets.
    encode stands for json.Marshal, of which nothing is assumed. */
module VariableTypes {
  import opened Addresses
  import opened Model

  datatype Marks = Marks(sensitive: bool, ephemeral: bool, modifier: string)

  /** A parsed value; source positions are not part of it. Numbers keep their digits as text. */
  datatype Value =
    | Null(marks: Marks)
    | Text(text: string, marks: Marks)
    | Bool(flag: bool, marks: Marks)
    | Number(digits: string, marks: Marks)
    | List(items: seq<Value>, marks: Marks)
    | Dict(entries: map<string, Value>, marks: Marks)

  datatype Type =
    | AnyType
    | TextType
    | NumberType
    | BoolType
    | ListType(element: Type)
    | SetType(element: Type)
    | MapType(element: Type)
    | ObjectType(attributes: map<string, Attribute>)
    | TupleType(components: seq<Type>)

  datatype Attribute = Attribute(kind: Type, default: Option<Value>, optional: bool)

  /** One step of the path that an error message names. */
  datatype Place = AtIndex(index: nat) | AtKey(key: string) | AtAttribute(name: string)

  /** Of several unknown attributes a map range reports any one; Unsupported holds them all, UnsupportedOne the one. */
  datatype TypeError =
    | WrongKind(want: Type, got: Value)
    | Unsupported(names: set<string>)
    | UnsupportedOne(name: string)
    | MissingAttribute(name: string)
    | WrongLength(required: nat, given: nat)
    | Inside(place: Place, error: TypeError)

  /** What json.Marshal sees of a value: no marks, and a number as the string of its digits. */
  datatype Canon = CNull | CText(text: string) | CBool(flag: bool) | CList(items: seq<Canon>) | CDict(entries: map<string, Canon>)

  function CanonOf(v: Value): Canon
  {
    match v
    case Null(_) => CNull
    case Text(text, _) => CText(text)
    case Bool(flag, _) => CBool(flag)
    case Number(digits, _) => CText(digits)
    case List(items, _) => CList(seq(|items|, i requires 0 <= i < |items| => CanonOf(items[i])))
    case Dict(entries, _) => CDict(map k | k in entries :: CanonOf(entries[k]))
  }

  function Key(encode: Canon -> string, v: Value): string
  {
    encode(CanonOf(v))
  }

  function InsertByKey(encode: Canon -> string, sorted: seq<Value>, x: Value): seq<Value>
  {
    if sorted != [] && Less(Key(encode, x), Key(encode, sorted[|sorted| - 1]))
    then InsertByKey(encode, sorted[..|sorted| - 1], x) + [sorted[|sorted| - 1]]
    else sorted + [x]
  }

  /** sort.SliceStable by Key. */
  function SortByKey(encode: Canon -> string, items: seq<Value>): seq<Value>
  {
    if items == [] then [] else InsertByKey(encode, SortByKey(encode, items[..|items| - 1]), items[|items| - 1])
  }

  /** Keep each item whose key differs from the item before it. */
  function Dedupe(encode: Canon -> string, items: seq<Value>): seq<Value>
  {
    if items == [] then []
    else
      var n := |items| - 1;
      var kept := Dedupe(encode, items[..n]);
      if n > 0 && Key(encode, items[n]) == Key(encode, items[n - 1]) then kept else kept + [items[n]]
  }

  function ItemType(spec: Type, i: nat): Type
    requires spec.ListType? || spec.SetType? || (spec.TupleType? && i < |spec.components|)
  {
    if spec.TupleType? then spec.components[i] else spec.element
  }

  ghost predicate HasItems(spec: Type, count: nat)
  {
    spec.ListType? || spec.SetType? || (spec.TupleType? && |spec.components| == count)
  }

  /** normalizeValueForType. */
  ghost function Normalize(encode: Canon -> string, spec: Type, value: Value): Result<Value, TypeError>
    decreases spec, 1, 0
  {
    if value.Null? then Ok(value)
    else
      match spec
      case AnyType => Ok(value)
      case TextType => if value.Text? then Ok(value) else Err(WrongKind(spec, value))
      case NumberType => if value.Number? then Ok(value) else Err(WrongKind(spec, value))
      case BoolType => if value.Bool? then Ok(value) else Err(WrongKind(spec, value))
      case ListType(_) =>
        if !value.List? then Err(WrongKind(spec, value))
        else
          var r := NormalizeItems(encode, spec, value.items, |value.items|);
          if r.Err? then Err(r.error) else Ok(value.(items := r.value))
      case SetType(_) =>
        if !value.List? then Err(WrongKind(spec, value))
        else
          var r := NormalizeItems(encode, spec, value.items, |value.items|);
          if r.Err? then Err(r.error) else Ok(value.(items := Dedupe(encode, SortByKey(encode, r.value))))
      case TupleType(components) =>
        if !value.List? then Err(WrongKind(spec, value))
        else if |value.items| != |components| then Err(WrongLength(|components|, |value.items|))
        else
          var r := NormalizeItems(encode, spec, value.items, |value.items|);
          if r.Err? then Err(r.error) else Ok(value.(items := r.value))
      case MapType(_) =>
        if !value.Dict? then Err(WrongKind(spec, value))
        else
          var r := NormalizeEntries(encode, spec, value.entries, SortedSeq(value.entries.Keys));
          if r.Err? then Err(r.error) else Ok(value.(entries := r.value))
      case ObjectType(attributes) =>
        if !value.Dict? then Err(WrongKind(spec, value))
        else if !(value.entries.Keys <= attributes.Keys) then Err(Unsupported(value.entries.Keys - attributes.Keys))
        else
          var r := NormalizeAttributes(encode, spec, value.entries, SortedSeq(attributes.Keys));
          if r.Err? then Err(r.error) else Ok(value.(entries := r.value))
  }

  /** The first n items, or the first item's error. */
  ghost function NormalizeItems(encode: Canon -> string, spec: Type, items: seq<Value>,
                                n: nat): Result<seq<Value>, TypeError>
    requires HasItems(spec, |items|) && n <= |items|
    decreases spec, 0, n
  {
    if n == 0 then Ok([])
    else
      var before := NormalizeItems(encode, spec, items, n - 1);
      if before.Err? then before
      else
        var r := Normalize(encode, ItemType(spec, n - 1), items[n - 1]);
        if r.Err? then Err(Inside(AtIndex(n - 1), r.error)) else Ok(before.value + [r.value])
  }

  ghost function NormalizeEntries(encode: Canon -> string, spec: Type, entries: map<string, Value>, keys: seq<string>)
    : Result<map<string, Value>, TypeError>
    requires spec.MapType?
    decreases spec, 0, |keys|
  {
    if keys == [] then Ok(map[])
    else
      var k := keys[|keys| - 1];
      var before := NormalizeEntries(encode, spec, entries, keys[..|keys| - 1]);
      if before.Err? || k !in entries then before
      else
        var r := Normalize(encode, spec.element, entries[k]);
        if r.Err? then Err(Inside(AtKey(k), r.error)) else Ok(before.value[k := r.value])
  }

  function At<T>(place: Place, r: Result<T, TypeError>): Result<T, TypeError>
  {
    if r.Err? then Err(Inside(place, r.error)) else r
  }

  const UNMARKED: Marks := Marks(false, false, "")

  /** One attribute of an object: given, defaulted, optional, or missing. */
  ghost function NormalizeAttribute(encode: Canon -> string, attribute: Attribute, name: string,
                                    entries: map<string, Value>)
    : Result<Value, TypeError>
    decreases attribute, 2, 0
  {
    if name in entries then At(AtAttribute(name), Normalize(encode, attribute.kind, entries[name]))
    else if attribute.default.Some? then At(AtAttribute(name), Normalize(encode, attribute.kind, attribute.default.value))
    else if attribute.optional then Ok(Null(UNMARKED))
    else Err(MissingAttribute(name))
  }

  ghost function NormalizeAttributes(encode: Canon -> string, spec: Type, entries: map<string, Value>,
                                     names: seq<string>)
    : Result<map<string, Value>, TypeError>
    requires spec.ObjectType?
    decreases spec, 0, |names|
  {
    if names == [] then Ok(map[])
    else
      var name := names[|names| - 1];
      var before := NormalizeAttributes(encode, spec, entries, names[..|names| - 1]);
      if before.Err? || name !in spec.attributes then before
      else
        var r := NormalizeAttribute(encode, spec.attributes[name], name, entries);
        if r.Err? then Err(r.error) else Ok(before.value[name := r.value])
  }

  ghost predicate KeysRise(encode: Canon -> string, items: seq<Value>)
  {
    forall i, j :: 0 <= i < j < |items| ==> Less(Key(encode, items[i]), Key(encode, items[j]))
  }

  /** A value of the type: null is allowed anywhere, sets are sorted and free of repeated keys, objects have
      exactly their attributes. */
  ghost predicate Conforms(encode: Canon -> string, spec: Type, value: Value)
    decreases spec
  {
    value.Null? ||
    match spec
    case AnyType => true
    case TextType => value.Text?
    case NumberType => value.Number?
    case BoolType => value.Bool?
    case ListType(element) => value.List? && forall i :: 0 <= i < |value.items| ==> Conforms(encode, element, value.items[i])
    case SetType(element) =>
      value.List? && KeysRise(encode, value.items) && forall i :: 0 <= i < |value.items| ==> Conforms(encode, element, value.items[i])
    case TupleType(components) =>
      value.List? && |value.items| == |components| &&
      forall i :: 0 <= i < |components| ==> Conforms(encode, components[i], value.items[i])
    case MapType(element) => value.Dict? && forall k :: k in value.entries ==> Conforms(encode, element, value.entries[k])
    case ObjectType(attributes) =>
      value.Dict? && value.entries.Keys == attributes.Keys &&
      forall k :: k in attributes ==> Conforms(encode, attributes[k].kind, value.entries[k])
  }
}
