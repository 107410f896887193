/** One managed host as the engine sees it: remote objects behind the provider, and the state file. */
module Remoting {
  import opened Model
  import opened Planning

  /** An object as the node wants it: the provider reports the digest of the desired attributes, whatever values it
      shows beside it, or it reports no digest and shows exactly the desired attributes. */
  predicate AsWanted(node: Node, observed: Observed)
  {
    observed.digest == HashOf(node.desired) || (observed.digest == NoDigest && observed.values == Some(node.desired))
  }

  /** What an inspection can report for a node: only nftables tables carry the engine's marker, and one that is as
      wanted carries it. */
  predicate Inspectable(node: Node, observed: Observed)
  {
    observed.present ==>
      if node.kind == "nftables_table" then AsWanted(node, observed) ==> observed.managed else !observed.managed
  }

  /** What each successful Apply of one run reports, and leaves behind at the node's address. */
  type Reports = Node -> Observed

  /** A successful Apply leaves the object as wanted; how the provider reports it is up to the provider. */
  ghost predicate Faithful(reports: Reports)
  {
    forall node :: reports(node).present && AsWanted(node, reports(node)) && Inspectable(node, reports(node))
  }

  /** Provider and backend of one host. Which calls fail, what a successful change reports, what a failed one leaves
      at its own address, and how many writes of the state succeed, is fixed when the object is made but otherwise
      arbitrary. */
  class Remote {
    var world: World
    var stored: Resources
    var writesLeft: nat
    const unreadable: set<string>
    const reports: Reports
    const failing: set<string>
    const residue: map<string, Observed>
    const unmigratable: set<string>

    constructor (world: World, stored: Resources, unreadable: set<string>, reports: Reports, failing: set<string>,
                 residue: map<string, Observed>, unmigratable: set<string>, writesLeft: nat)
      ensures this.world == world && this.stored == stored && this.unreadable == unreadable
      ensures this.reports == reports && this.failing == failing && this.residue == residue
      ensures this.unmigratable == unmigratable && this.writesLeft == writesLeft
    {
      this.world, this.stored := world, stored;
      this.unreadable, this.reports, this.failing, this.residue := unreadable, reports, failing, residue;
      this.unmigratable, this.writesLeft := unmigratable, writesLeft;
    }

    method Inspect(node: Node) returns (r: Option<Observed>)
      ensures r == if node.address in unreadable then None else Some(Look(world, node.address))
    {
      r := if node.address in unreadable then None else Some(Look(world, node.address));
    }

    function Damaged(address: string): World
      reads this
    {
      if address in residue then world[address := residue[address]] else world - {address}
    }

    method Apply(step: Step) returns (r: Option<Observed>)
      modifies this`world
      ensures step.address !in failing ==>
                r == Some(reports(step.node)) && world == old(world)[step.address := reports(step.node)]
      ensures step.address in failing ==> r.None? && world == old(Damaged(step.address))
    {
      if step.address in failing {
        world := Damaged(step.address);
        return None;
      }
      r := Some(reports(step.node));
      world := world[step.address := r.value];
    }

    method Delete(step: Step) returns (ok: bool)
      modifies this`world
      ensures ok <==> step.address !in failing
      ensures world == if ok then old(world) - {step.address} else old(Damaged(step.address))
    {
      ok := step.address !in failing;
      world := if ok then world - {step.address} else Damaged(step.address);
    }

    /** `MigrateProtectedPrior` moves private bookkeeping; it does not change any per-address observation. */
    method Migrate(step: Step) returns (ok: bool)
      ensures ok <==> step.address !in unmigratable
    {
      ok := step.address !in unmigratable;
    }

    method Write(resources: Resources) returns (ok: bool)
      modifies this`stored, this`writesLeft
      ensures ok <==> old(writesLeft) > 0
      ensures stored == if ok then resources else old(stored)
      ensures writesLeft == if ok then old(writesLeft) - 1 else 0
    {
      ok := writesLeft > 0;
      if ok {
        stored, writesLeft := resources, writesLeft - 1;
      }
    }
  }
}
