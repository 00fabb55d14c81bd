/** Inter-procedural basic blocks: which block each ICFG node was put in. */
module IBBG {

  /** The blocks with their node lists, and the block of each node. */
  datatype Layout = Layout(blocks: map<nat, seq<nat>>, blockOf: map<nat, nat>)

  ghost predicate WellPlaced(l: Layout) {
    && (forall x :: x in l.blockOf ==> l.blockOf[x] in l.blocks && x in l.blocks[l.blockOf[x]])
    && (forall b, x :: b in l.blocks && x in l.blocks[b] ==> x in l.blockOf && l.blockOf[x] == b)
    && (forall b :: b in l.blocks ==> l.blocks[b] != [])
  }

  /** A new block made of `nodes`, named after the first one. */
  ghost function Place(l: Layout, nodes: seq<nat>): Layout
    requires nodes != []
  {
    Layout(l.blocks[nodes[0] := nodes], l.blockOf + Named(nodes, nodes[0]))
  }

  lemma PlaceKeeps(l: Layout, nodes: seq<nat>)
    requires WellPlaced(l) && nodes != [] && nodes[0] !in l.blocks
    requires forall x :: x in nodes ==> x !in l.blockOf
    ensures WellPlaced(Place(l, nodes))
  {
    var after := Place(l, nodes);
    forall b, x | b in after.blocks && x in after.blocks[b]
      ensures x in after.blockOf && after.blockOf[x] == b
    {
      if b != nodes[0] {
        assert x in l.blocks[b];
      }
    }
  }

  /** Every block is named after its first node. */
  ghost predicate FirstNames(l: Layout) {
    forall b :: b in l.blocks ==> l.blocks[b] != [] && l.blocks[b][0] == b
  }

  lemma NamesArePlaced(l: Layout)
    requires WellPlaced(l) && FirstNames(l)
    ensures forall b :: b in l.blocks ==> b in l.blockOf
  {
    forall b | b in l.blocks
      ensures b in l.blockOf
    {
      assert l.blocks[b][0] in l.blocks[b];
    }
  }

  ghost function Named(nodes: seq<nat>, id: nat): map<nat, nat> {
    map x | x in nodes :: id
  }

  lemma NameOneMore(m: map<nat, nat>, nodes: seq<nat>, i: nat, id: nat)
    requires i < |nodes|
    ensures m + Named(nodes[..i + 1], id) == (m + Named(nodes[..i], id))[nodes[i] := id]
  {
    assert nodes[..i + 1] == nodes[..i] + [nodes[i]];
  }

  datatype Added = NoNode | Aborted(conflict: nat) | Block(id: nat)

  class IBBGraph {
    var nodeIdAllocated: set<nat>
    var idToIbbnode: map<nat, nat>
    var gnodes: map<nat, seq<nat>>

    ghost function View(): Layout
      reads this
    {
      Layout(gnodes, idToIbbnode)
    }

    ghost predicate Valid()
      reads this
    {
      && WellPlaced(View()) && nodeIdAllocated == idToIbbnode.Keys
      && FirstNames(View())
    }

    constructor ()
      ensures Valid() && View() == Layout(map[], map[])
    {
      nodeIdAllocated, idToIbbnode, gnodes := {}, map[], map[];
    }

    /** Allocate `nodes` to the block `id`. */
    method NameAll(nodes: seq<nat>, id: nat)
      requires nodeIdAllocated == idToIbbnode.Keys
      modifies this`nodeIdAllocated, this`idToIbbnode
      ensures idToIbbnode == old(idToIbbnode) + Named(nodes, id) && nodeIdAllocated == idToIbbnode.Keys
    {
      for i := 0 to |nodes|
        invariant idToIbbnode == old(idToIbbnode) + Named(nodes[..i], id) && nodeIdAllocated == idToIbbnode.Keys
      {
        NameOneMore(old(idToIbbnode), nodes, i, id);
        nodeIdAllocated := nodeIdAllocated + {nodes[i]};
        idToIbbnode := idToIbbnode[nodes[i] := id];
      }
      assert nodes[..|nodes|] == nodes;
    }

    method FirstAllocated(nodes: seq<nat>) returns (i: nat)
      ensures i <= |nodes| && (i < |nodes| ==> nodes[i] in nodeIdAllocated)
      ensures forall x :: x in nodes[..i] ==> x !in nodeIdAllocated
    {
      i := 0;
      while i < |nodes| && nodes[i] !in nodeIdAllocated
        invariant i <= |nodes| && forall x :: x in nodes[..i] ==> x !in nodeIdAllocated
      {
        assert nodes[..i + 1] == nodes[..i] + [nodes[i]];
        i := i + 1;
      }
    }

    /** A block for `nodes`, named after its first node. Nothing happens for an
        empty list; a node that already has a block aborts the program. */
    method AddIBBNode(nodes: seq<nat>) returns (r: Added)
      requires Valid()
      modifies this
      ensures Valid()
      ensures r == NoNode <==> nodes == []
      ensures r.Block? ==> forall x :: x in nodes ==> x !in old(View()).blockOf
      ensures r.Aborted? ==> r.conflict in nodes && r.conflict in old(View()).blockOf
      ensures !r.Block? ==> View() == old(View())
      ensures r.Block? ==> r.id == nodes[0] && r.id !in old(View()).blocks && View() == Place(old(View()), nodes)
    {
      if nodes == [] {
        return NoNode;
      }
      var i := FirstAllocated(nodes);
      if i < |nodes| {
        return Aborted(nodes[i]);
      }
      NamesArePlaced(View());
      PlaceKeeps(View(), nodes);
      NameAll(nodes, nodes[0]);
      gnodes := gnodes[nodes[0] := nodes];
      assert View() == Place(old(View()), nodes);
      r := Block(nodes[0]);
    }

    /** The block of a placed node. */
    method GetIBBNode(id: nat) returns (b: nat)
      requires Valid() && id in View().blockOf
      ensures b in View().blocks && id in View().blocks[b]
      ensures forall c :: c in View().blocks && id in View().blocks[c] ==> c == b
    {
      b := idToIbbnode[id];
    }
  }
}
