/**
 * Validator bookkeeping of the XSVM end-to-end scenario: the lookup of the
 * network nodes that validate a subnet (getNodesForIDs) and the midpoint split
 * of the network's nodes into the validator sets of subnets A and B
 * (XSVMSubnetsOrPanic).
 */
module Validators {

  /** A node identifier (a 20-byte hash in the system). */
  type NodeID = seq<bv8>

  /** A node of the temporary test network; only its identifier matters here. */
  datatype Node = Node(nodeID: NodeID, uri: string)

  /** The validator node lists handed to the two XSVM subnets. */
  datatype SubnetNodes = SubnetNodes(subnetA: seq<Node>, subnetB: seq<Node>)

  predicate Distinct<T(==)>(s: seq<T>) {
    forall i, j :: 0 <= i < j < |s| ==> s[i] != s[j]
  }

  /** No two of `nodes` share an identifier. */
  predicate DistinctIDs(nodes: seq<Node>) {
    forall i, j :: 0 <= i < j < |nodes| ==> nodes[i].nodeID != nodes[j].nodeID
  }

  /** The identifiers of `nodes`, in order. */
  function IDs(nodes: seq<Node>): seq<NodeID> {
    seq(|nodes|, i requires 0 <= i < |nodes| => nodes[i].nodeID)
  }

  function Repeat(node: Node, k: nat): seq<Node> {
    seq(k, _ => node)
  }

  // ---------------------------------------------------------------------------
  // Specification of getNodesForIDs
  // ---------------------------------------------------------------------------

  /** What the inner loop appends for `node`: one copy per entry of `nodeIDs` equal to its ID. */
  function Matches(node: Node, nodeIDs: seq<NodeID>): seq<Node>
    decreases |nodeIDs|
  {
    if nodeIDs == [] then []
    else
      var last := nodeIDs[|nodeIDs| - 1];
      Matches(node, nodeIDs[..|nodeIDs| - 1]) + (if node.nodeID == last then [node] else [])
  }

  /** What the outer loop accumulates: the matches of every node, in the order of `nodes`. */
  function Select(nodes: seq<Node>, nodeIDs: seq<NodeID>): seq<Node>
    decreases |nodes|
  {
    if nodes == [] then []
    else Select(nodes[..|nodes| - 1], nodeIDs) + Matches(nodes[|nodes| - 1], nodeIDs)
  }

  /** Reference definition: the nodes whose ID occurs in `nodeIDs`, each once, in order. */
  function Filter(nodes: seq<Node>, nodeIDs: seq<NodeID>): seq<Node>
    decreases |nodes|
  {
    if nodes == [] then []
    else
      var last := nodes[|nodes| - 1];
      Filter(nodes[..|nodes| - 1], nodeIDs) + (if last.nodeID in nodeIDs then [last] else [])
  }

  /** The number of (node, id) pairs whose identifiers are equal. */
  function MatchingPairs(nodes: seq<Node>, nodeIDs: seq<NodeID>): nat
    decreases |nodes|
  {
    if nodes == [] then 0
    else MatchingPairs(nodes[1..], nodeIDs) + multiset(nodeIDs)[nodes[0].nodeID]
  }

  // ---------------------------------------------------------------------------
  // getNodesForIDs
  // ---------------------------------------------------------------------------

  /**
   * The nodes of `nodes` whose ID occurs in `nodeIDs`: for each node, in
   * order, one copy per entry of `nodeIDs` equal to its ID.
   */
  method GetNodesForIDs(nodes: seq<Node>, nodeIDs: seq<NodeID>) returns (desiredNodes: seq<Node>)
    ensures desiredNodes == Select(nodes, nodeIDs)
    ensures forall x :: x in desiredNodes <==> x in nodes && x.nodeID in nodeIDs
    ensures |desiredNodes| == MatchingPairs(nodes, nodeIDs)
  {
    desiredNodes := [];
    for i := 0 to |nodes|
      invariant desiredNodes == Select(nodes[..i], nodeIDs)
    {
      var node := nodes[i];
      for j := 0 to |nodeIDs|
        invariant desiredNodes == Select(nodes[..i], nodeIDs) + Matches(node, nodeIDs[..j])
      {
        assert nodeIDs[..j + 1][..j] == nodeIDs[..j];
        if node.nodeID == nodeIDs[j] {
          desiredNodes := desiredNodes + [node];
        }
      }
      assert nodeIDs[..|nodeIDs|] == nodeIDs;
      assert nodes[..i + 1][..i] == nodes[..i];
    }
    assert nodes[..|nodes|] == nodes;
    SelectMembership(nodes, nodeIDs);
    SelectLength(nodes, nodeIDs);
  }

  // ---------------------------------------------------------------------------
  // Properties of the lookup
  // ---------------------------------------------------------------------------

  /** Each node contributes exactly as many copies of itself as there are entries equal to its ID. */
  lemma {:induction false} MatchesAreCopies(node: Node, nodeIDs: seq<NodeID>)
    ensures Matches(node, nodeIDs) == Repeat(node, multiset(nodeIDs)[node.nodeID])
    decreases |nodeIDs|
  {
    if nodeIDs != [] {
      var init, last := nodeIDs[..|nodeIDs| - 1], nodeIDs[|nodeIDs| - 1];
      assert nodeIDs == init + [last];
      MatchesAreCopies(node, init);
      assert multiset(nodeIDs) == multiset(init) + multiset{last};
    }
  }

  /** A node found in the result is a node of the network whose ID was asked for, and conversely. */
  lemma {:induction false} SelectMembership(nodes: seq<Node>, nodeIDs: seq<NodeID>)
    ensures forall x :: x in Select(nodes, nodeIDs) <==> x in nodes && x.nodeID in nodeIDs
    decreases |nodes|
  {
    if nodes != [] {
      var init, last := nodes[..|nodes| - 1], nodes[|nodes| - 1];
      assert nodes == init + [last];
      SelectMembership(init, nodeIDs);
      MatchesAreCopies(last, nodeIDs);
      var k := multiset(nodeIDs)[last.nodeID];
      assert k > 0 <==> last.nodeID in nodeIDs;
      if k > 0 {
        assert Matches(last, nodeIDs)[0] == last;
      }
    }
  }

  /** The lookup distributes over concatenation: the matches of earlier nodes come first. */
  lemma {:induction false} SelectAppend(a: seq<Node>, b: seq<Node>, nodeIDs: seq<NodeID>)
    ensures Select(a + b, nodeIDs) == Select(a, nodeIDs) + Select(b, nodeIDs)
    decreases |b|
  {
    if b == [] {
      assert a + b == a;
    } else {
      var init, last := b[..|b| - 1], b[|b| - 1];
      var ab := a + b;
      assert ab[..|ab| - 1] == a + init && ab[|ab| - 1] == last;
      assert Select(ab, nodeIDs) == Select(a + init, nodeIDs) + Matches(last, nodeIDs);
      SelectAppend(a, init, nodeIDs);
      assert Select(b, nodeIDs) == Select(init, nodeIDs) + Matches(last, nodeIDs);
    }
  }

  /**
   * Order: the result is the concatenation, in the order of `nodes`, of each
   * node repeated once per entry of `nodeIDs` equal to its ID.
   */
  lemma {:induction false} SelectOrder(before: seq<Node>, node: Node, after: seq<Node>, nodeIDs: seq<NodeID>)
    ensures Select(before + [node] + after, nodeIDs)
         == Select(before, nodeIDs) + Repeat(node, multiset(nodeIDs)[node.nodeID]) + Select(after, nodeIDs)
  {
    SelectAppend(before + [node], after, nodeIDs);
    SelectAppend(before, [node], nodeIDs);
    assert [node][..0] == [];
    MatchesAreCopies(node, nodeIDs);
  }

  /** The result has one element per matching (node, id) pair. */
  lemma {:induction false} SelectLength(nodes: seq<Node>, nodeIDs: seq<NodeID>)
    ensures |Select(nodes, nodeIDs)| == MatchingPairs(nodes, nodeIDs)
    decreases |nodes|
  {
    if nodes != [] {
      var rest := nodes[1..];
      assert nodes == [nodes[0]] + rest;
      SelectAppend([nodes[0]], rest, nodeIDs);
      assert [nodes[0]][..0] == [];
      MatchesAreCopies(nodes[0], nodeIDs);
      SelectLength(rest, nodeIDs);
    }
  }

  /** Without repeated IDs in `nodeIDs` each entry is counted at most once. */
  lemma {:induction false} DistinctCount(nodeIDs: seq<NodeID>, id: NodeID)
    requires Distinct(nodeIDs)
    ensures multiset(nodeIDs)[id] == if id in nodeIDs then 1 else 0
    decreases |nodeIDs|
  {
    if nodeIDs != [] {
      var init, last := nodeIDs[..|nodeIDs| - 1], nodeIDs[|nodeIDs| - 1];
      assert nodeIDs == init + [last];
      assert Distinct(init);
      assert last !in init;
      DistinctCount(init, id);
    }
  }

  /** With distinct IDs the lookup is a plain order-preserving filter. */
  lemma {:induction false} SelectIsFilter(nodes: seq<Node>, nodeIDs: seq<NodeID>)
    requires Distinct(nodeIDs)
    ensures Select(nodes, nodeIDs) == Filter(nodes, nodeIDs)
    decreases |nodes|
  {
    if nodes != [] {
      var last := nodes[|nodes| - 1];
      SelectIsFilter(nodes[..|nodes| - 1], nodeIDs);
      MatchesAreCopies(last, nodeIDs);
      DistinctCount(nodeIDs, last.nodeID);
    }
  }

  lemma {:induction false} FilterMembership(nodes: seq<Node>, nodeIDs: seq<NodeID>)
    ensures forall x :: x in Filter(nodes, nodeIDs) ==> x in nodes
    decreases |nodes|
  {
    if nodes != [] {
      var init := nodes[..|nodes| - 1];
      FilterMembership(init, nodeIDs);
      assert forall x :: x in init ==> x in nodes;
    }
  }

  lemma {:induction false} FilterDistinct(nodes: seq<Node>, nodeIDs: seq<NodeID>)
    requires Distinct(nodes)
    ensures Distinct(Filter(nodes, nodeIDs))
    decreases |nodes|
  {
    if nodes != [] {
      var init, last := nodes[..|nodes| - 1], nodes[|nodes| - 1];
      assert Distinct(init);
      FilterDistinct(init, nodeIDs);
      FilterMembership(init, nodeIDs);
      assert last !in init;
    }
  }

  /** With distinct IDs and distinct nodes the result has no duplicates. */
  lemma SelectNoDuplicates(nodes: seq<Node>, nodeIDs: seq<NodeID>)
    requires Distinct(nodeIDs) && Distinct(nodes)
    ensures Distinct(Select(nodes, nodeIDs))
  {
    SelectIsFilter(nodes, nodeIDs);
    FilterDistinct(nodes, nodeIDs);
  }

  // ---------------------------------------------------------------------------
  // Helpers about Filter used to relate the lookup to the split
  // ---------------------------------------------------------------------------

  lemma {:induction false} FilterAppend(a: seq<Node>, b: seq<Node>, nodeIDs: seq<NodeID>)
    ensures Filter(a + b, nodeIDs) == Filter(a, nodeIDs) + Filter(b, nodeIDs)
    decreases |b|
  {
    if b == [] {
      assert a + b == a;
    } else {
      assert (a + b)[..|a + b| - 1] == a + b[..|b| - 1];
      FilterAppend(a, b[..|b| - 1], nodeIDs);
    }
  }

  lemma {:induction false} FilterKeepsAll(nodes: seq<Node>, nodeIDs: seq<NodeID>)
    requires forall k :: 0 <= k < |nodes| ==> nodes[k].nodeID in nodeIDs
    ensures Filter(nodes, nodeIDs) == nodes
    decreases |nodes|
  {
    if nodes != [] {
      FilterKeepsAll(nodes[..|nodes| - 1], nodeIDs);
    }
  }

  lemma {:induction false} FilterDropsAll(nodes: seq<Node>, nodeIDs: seq<NodeID>)
    requires forall k :: 0 <= k < |nodes| ==> nodes[k].nodeID !in nodeIDs
    ensures Filter(nodes, nodeIDs) == []
    decreases |nodes|
  {
    if nodes != [] {
      FilterDropsAll(nodes[..|nodes| - 1], nodeIDs);
    }
  }

  /** Looking up the IDs of distinct-ID nodes keeps all of them. */
  lemma OwnIDsKept(part: seq<Node>)
    requires DistinctIDs(part)
    ensures Distinct(IDs(part)) && Filter(part, IDs(part)) == part
  {
    forall k | 0 <= k < |part| ensures part[k].nodeID in IDs(part) {
      assert IDs(part)[k] == part[k].nodeID;
    }
    FilterKeepsAll(part, IDs(part));
  }

  /** Nodes whose IDs differ from every ID of `part` are all dropped. */
  lemma OtherIDsDropped(others: seq<Node>, part: seq<Node>)
    requires IDsApart(others, part)
    ensures Filter(others, IDs(part)) == []
  {
  }

  /** No node of `a` shares its ID with a node of `b`. */
  predicate IDsApart(a: seq<Node>, b: seq<Node>) {
    forall k, j :: 0 <= k < |a| && 0 <= j < |b| ==> a[k].nodeID != b[j].nodeID
  }

  /** Distinct IDs of a concatenation: each side has distinct IDs and no ID is on both sides. */
  lemma DistinctIDsSplit(a: seq<Node>, b: seq<Node>)
    requires DistinctIDs(a + b)
    ensures DistinctIDs(a) && DistinctIDs(b) && IDsApart(a, b)
  {
    var ab := a + b;
    forall i, j | 0 <= i < j < |a| ensures a[i].nodeID != a[j].nodeID {
      assert ab[i] == a[i] && ab[j] == a[j];
    }
    forall i, j | 0 <= i < j < |b| ensures b[i].nodeID != b[j].nodeID {
      assert ab[|a| + i] == b[i] && ab[|a| + j] == b[j];
    }
    forall k, j | 0 <= k < |a| && 0 <= j < |b| ensures a[k].nodeID != b[j].nodeID {
      assert ab[k] == a[k] && ab[|a| + j] == b[j];
    }
  }

  lemma IDsApartSuffix(x: seq<Node>, y: seq<Node>, z: seq<Node>)
    requires IDsApart(x + y, z)
    ensures IDsApart(z, y)
  {
    forall k, j | 0 <= k < |z| && 0 <= j < |y| ensures z[k].nodeID != y[j].nodeID {
      assert (x + y)[|x| + j] == y[j];
    }
  }

  lemma FilterOwnPart(before: seq<Node>, part: seq<Node>, after: seq<Node>)
    requires DistinctIDs(part) && IDsApart(before, part) && IDsApart(after, part)
    ensures Filter(before + part + after, IDs(part)) == part
  {
    var ids := IDs(part);
    OwnIDsKept(part);
    OtherIDsDropped(before, part);
    OtherIDsDropped(after, part);
    FilterAppend(before + part, after, ids);
    FilterAppend(before, part, ids);
    assert [] + part + [] == part;
  }

  /**
   * Looking up, among network nodes with distinct IDs, the IDs of a contiguous
   * part of them gives back exactly that part.
   */
  lemma LookupOwnPart(before: seq<Node>, part: seq<Node>, after: seq<Node>)
    requires DistinctIDs(before + part + after)
    ensures Select(before + part + after, IDs(part)) == part
  {
    DistinctIDsSplit(before + part, after);
    DistinctIDsSplit(before, part);
    IDsApartSuffix(before, part, after);
    OwnIDsKept(part);
    SelectIsFilter(before + part + after, IDs(part));
    FilterOwnPart(before, part, after);
  }

  // ---------------------------------------------------------------------------
  // The validator split of XSVMSubnetsOrPanic
  // ---------------------------------------------------------------------------

  /**
   * With more than one node, subnet A gets the nodes before the midpoint
   * len/2 and subnet B the rest; otherwise both subnets get every node.
   */
  function SplitValidators(nodes: seq<Node>): (r: SubnetNodes)
    ensures |nodes| <= 1 ==> r.subnetA == nodes && r.subnetB == nodes
    ensures |nodes| > 1 ==> r.subnetA + r.subnetB == nodes
    ensures |nodes| > 1 ==> r.subnetA != [] && r.subnetB != []
    ensures |nodes| > 1 ==> |r.subnetB| == |r.subnetA| || |r.subnetB| == |r.subnetA| + 1
  {
    if |nodes| > 1 then
      var midpoint := |nodes| / 2;
      SubnetNodes(nodes[..midpoint], nodes[midpoint..])
    else
      SubnetNodes(nodes, nodes)
  }

  /** Nodes with distinct IDs give subnets A and B disjoint validator sets when there are several. */
  lemma SplitDisjoint(nodes: seq<Node>)
    requires |nodes| > 1 && DistinctIDs(nodes)
    ensures forall id :: !(id in IDs(SplitValidators(nodes).subnetA) && id in IDs(SplitValidators(nodes).subnetB))
  {
  }

  /** Together the two validator sets still cover every node. */
  lemma SplitCovers(nodes: seq<Node>)
    ensures forall x :: x in nodes <==> x in SplitValidators(nodes).subnetA || x in SplitValidators(nodes).subnetB
  {
  }

  /** Nodes with distinct IDs are distinct nodes. */
  lemma DistinctIDsDistinct(nodes: seq<Node>)
    requires DistinctIDs(nodes)
    ensures Distinct(nodes)
  {
    forall i, j | 0 <= i < j < |nodes| ensures nodes[i] != nodes[j] {
      assert nodes[i].nodeID != nodes[j].nodeID;
    }
  }

  /**
   * Looking up the IDs of `part` among network nodes with distinct IDs that
   * include every node of `part` finds exactly the nodes of `part`, each once,
   * whatever the order of the network's list.
   */
  lemma LookupFindsPart(network: seq<Node>, part: seq<Node>)
    requires DistinctIDs(network) && DistinctIDs(part)
    requires forall x :: x in part ==> x in network
    ensures forall x :: x in Select(network, IDs(part)) <==> x in part
    ensures Distinct(Select(network, IDs(part)))
  {
    var ids := IDs(part);
    SelectMembership(network, ids);
    forall x | x in network && x.nodeID in ids ensures x in part {
      var j :| 0 <= j < |ids| && ids[j] == x.nodeID;
      var p, q :| 0 <= p < |network| && network[p] == x && 0 <= q < |network| && network[q] == part[j];
      assert network[p].nodeID == network[q].nodeID;
      assert p == q;
    }
    forall x | x in part ensures x.nodeID in ids {
      var j :| 0 <= j < |part| && part[j] == x;
      assert ids[j] == x.nodeID;
    }
    OwnIDsKept(part);
    DistinctIDsDistinct(network);
    SelectNoDuplicates(network, ids);
  }

  /** Each half of a split of network nodes with distinct IDs is again such a list. */
  lemma SplitHalvesKeepIDs(network: seq<Node>, nodes: seq<Node>)
    requires DistinctIDs(nodes)
    requires forall x :: x in nodes ==> x in network
    ensures DistinctIDs(SplitValidators(nodes).subnetA) && DistinctIDs(SplitValidators(nodes).subnetB)
    ensures forall x :: x in SplitValidators(nodes).subnetA ==> x in network
    ensures forall x :: x in SplitValidators(nodes).subnetB ==> x in network
  {
    var r := SplitValidators(nodes);
    SplitCovers(nodes);
    if |nodes| > 1 {
      DistinctIDsSplit(r.subnetA, r.subnetB);
    }
  }

  /**
   * The scenario's lookups (getNodesForIDs over the network's nodes with a
   * subnet's validator IDs): when every split node is a network node and IDs
   * are distinct, each lookup finds exactly that subnet's half, each node
   * once, and is non-empty when there is a node to split.
   */
  lemma LookupFindsSubnetValidators(network: seq<Node>, nodes: seq<Node>)
    requires DistinctIDs(network) && DistinctIDs(nodes)
    requires forall x :: x in nodes ==> x in network
    ensures forall x :: x in Select(network, IDs(SplitValidators(nodes).subnetA)) <==> x in SplitValidators(nodes).subnetA
    ensures forall x :: x in Select(network, IDs(SplitValidators(nodes).subnetB)) <==> x in SplitValidators(nodes).subnetB
    ensures Distinct(Select(network, IDs(SplitValidators(nodes).subnetA)))
    ensures Distinct(Select(network, IDs(SplitValidators(nodes).subnetB)))
    ensures nodes != [] ==> Select(network, IDs(SplitValidators(nodes).subnetA)) != []
    ensures nodes != [] ==> Select(network, IDs(SplitValidators(nodes).subnetB)) != []
  {
    var r := SplitValidators(nodes);
    SplitHalvesKeepIDs(network, nodes);
    LookupFindsPart(network, r.subnetA);
    LookupFindsPart(network, r.subnetB);
    if nodes != [] {
      assert r.subnetA[0] in r.subnetA && r.subnetB[0] in r.subnetB;
    }
  }

  /**
   * When the network's node list is the very list that was split, each lookup
   * gives back its subnet's half exactly, in order.
   */
  lemma LookupReturnsSubnetHalf(nodes: seq<Node>)
    requires DistinctIDs(nodes)
    ensures Select(nodes, IDs(SplitValidators(nodes).subnetA)) == SplitValidators(nodes).subnetA
    ensures Select(nodes, IDs(SplitValidators(nodes).subnetB)) == SplitValidators(nodes).subnetB
  {
    var r := SplitValidators(nodes);
    if |nodes| > 1 {
      assert nodes == [] + r.subnetA + r.subnetB;
      LookupOwnPart([], r.subnetA, r.subnetB);
      assert nodes == r.subnetA + r.subnetB + [];
      LookupOwnPart(r.subnetA, r.subnetB, []);
    } else {
      assert nodes == [] + nodes + [];
      LookupOwnPart([], nodes, []);
    }
  }
}
