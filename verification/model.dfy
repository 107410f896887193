/** The entities the engine passes around: graph nodes, tracked state resources,
    observations and plan steps. */
module Model {
  datatype Option<+T> = None | Some(value: T)

  datatype Result<+T, +E> = Ok(value: T) | Err(error: E)

  /** A value of a `map[string]any` attribute. */
  datatype Attr =
    | Text(text: string)
    | Flag(flag: bool)
    | Nested(fields: map<string, Attr>)
    | Opaque(repr: string)

  type Attributes = map<string, Attr>

  /** A stored or observed digest. Hashing is injective: the digest of attributes is those attributes. */
  datatype Digest = NoDigest | HashOf(attributes: Attributes) | OtherHash(text: string)

  datatype Action = Create | Update | Adopt | Delete | Destroy | Forget | NoOp

  datatype Node = Node(
    host: string,
    address: string,
    kind: string,
    managed: bool,
    desired: Attributes,
    payload: Attributes,
    dependsOn: seq<string>,
    triggeredBy: seq<string>,
    explicitDependsOn: seq<string>,
    dependencySources: map<string, string>,
    sensitive: bool,
    ephemeral: bool,
    digestSafe: bool,
    preventDestroy: bool)

  /** A tracked resource of the persisted state. isProtected is the disjunction of the
      Protected, Sensitive and Ephemeral marks, which is all the engine asks of them. */
  datatype Resource = Resource(
    kind: string,
    order: nat,
    desiredDigest: Digest,
    dependsOn: seq<string>,
    isProtected: bool,
    preventDestroy: bool,
    deleteBehavior: string,
    delete: Attributes)

  /** What an inspection saw; managed says that the object carries the engine's own marker. */
  datatype Observed = Observed(present: bool, values: Option<Attributes>, digest: Digest, isProtected: bool, managed: bool)

  datatype Step = Step(
    address: string,
    action: Action,
    node: Node,
    prior: Option<Resource>,
    observed: Observed,
    triggeredBy: seq<string>,
    reclassified: bool)
  {
    /** A step without a graph node removes or forgets an orphaned state resource. */
    predicate IsOrphan() { node.address == "" }
  }

  const NoNode := Node("", "", "", false, map[], map[], [], [], [], map[], false, false, false, false)
  const Unobserved := Observed(false, None, NoDigest, false, false)

  predicate RemovesRemoteObject(action: Action)
  {
    action == Delete || action == Destroy
  }
}
