/**
 The network registry: class `Network` and `rebuildNetwork` of orchestrator/src/network.ts.
 Several indices list the same nodes: the relay chain, one list a parachain, the groups and the table
 by name. A running network is dumped as that table and rebuilt from it.
 */
module Registry {
  import opened Wrappers
  import opened OrderedMap

  /** A node as far as the registry reads it; a parachain of zero and an empty group are none. */
  datatype Node = Node(name: string, wsUri: string, prometheusUri: string, multiAddress: string,
                       userDefinedTypes: string, prometheusPrefix: string, parachainId: nat, group: string)

  datatype Para = Para(chainSpecPath: string, nodes: seq<Node>)

  datatype Scope = Relay | ParaScope | Companion

  datatype RegistryError = InvalidNode | NotPresent

  datatype State = State(
    relay: seq<Node>, companions: seq<Node>,
    paras: map<nat, Para>,
    groups: map<string, seq<Node>>,
    nodesByName: Entries<string, Node>)

  const EMPTY := State([], [], map[], map[], [])

  // ---- the two operations

  function WithPara(s: State, id: nat, chainSpecPath: string): State {
    if id in s.paras then s else s.(paras := s.paras[id := Para(chainSpecPath, [])])
  }

  /** The lists a scope names; a collator needs its parachain to be known. */
  function Listed(s: State, node: Node, scope: Scope): Result<State, RegistryError> {
    match scope
    case Relay => Ok(s.(relay := s.relay + [node]))
    case Companion => Ok(s.(companions := s.companions + [node]))
    case ParaScope =>
      if node.parachainId == 0 || node.parachainId !in s.paras then Err(InvalidNode)
      else
        var p := s.paras[node.parachainId];
        Ok(s.(paras := s.paras[node.parachainId := p.(nodes := p.nodes + [node])]))
  }

  function GroupOf(groups: map<string, seq<Node>>, g: string): seq<Node> { if g in groups then groups[g] else [] }

  function Indexed(s: State, node: Node): State {
    s.(nodesByName := Set(s.nodesByName, node.name, node),
       groups := if node.group == "" then s.groups else s.groups[node.group := GroupOf(s.groups, node.group) + [node]])
  }

  function WithNode(s: State, node: Node, scope: Scope): Result<State, RegistryError> {
    var t :- Listed(s, node, scope);
    Ok(Indexed(t, node))
  }

  // ---- the source

  class Network {
    var relay: seq<Node>
    var companions: seq<Node>
    var paras: map<nat, Para>
    var groups: map<string, seq<Node>>
    var nodesByName: Entries<string, Node>

    ghost function View(): State
      reads this
    {
      State(relay, companions, paras, groups, nodesByName)
    }

    constructor ()
      ensures View() == EMPTY
    {
      relay, companions, paras, groups, nodesByName := [], [], map[], map[], [];
    }

    method AddPara(parachainId: nat, chainSpecPath: string)
      modifies this
      ensures View() == WithPara(old(View()), parachainId, chainSpecPath)
    {
      if parachainId !in paras {
        paras := paras[parachainId := Para(chainSpecPath, [])];
      }
    }

    /** A refused node changes nothing. */
    method AddNode(node: Node, scope: Scope) returns (r: Result<(), RegistryError>)
      modifies this
      ensures var after := WithNode(old(View()), node, scope);
              if after.Ok? then r == Ok(()) && View() == after.value else r == Err(after.error) && View() == old(View())
    {
      match scope {
        case Relay => relay := relay + [node];
        case Companion => companions := companions + [node];
        case ParaScope =>
          if node.parachainId == 0 || node.parachainId !in paras {
            return Err(InvalidNode);
          }
          var p := paras[node.parachainId];
          paras := paras[node.parachainId := p.(nodes := p.nodes + [node])];
      }
      nodesByName := Set(nodesByName, node.name, node);
      if node.group != "" {
        if node.group !in groups {
          groups := groups[node.group := []];
        }
        groups := groups[node.group := groups[node.group] + [node]];
      }
      return Ok(());
    }

    /** A name is looked up before a group of the same name. */
    method GetNodes(nodeOrGroupName: string) returns (r: Result<seq<Node>, RegistryError>)
      ensures r == Nodes(View(), nodeOrGroupName)
    {
      if Has(nodesByName, nodeOrGroupName) {
        return Ok([Get(nodesByName, nodeOrGroupName).value]);
      }
      if nodeOrGroupName !in groups {
        return Err(NotPresent);
      }
      return Ok(groups[nodeOrGroupName]);
    }
  }

  function Nodes(s: State, name: string): Result<seq<Node>, RegistryError> {
    if Has(s.nodesByName, name) then Ok([Get(s.nodesByName, name).value])
    else if name in s.groups then Ok(s.groups[name])
    else Err(NotPresent)
  }

  // ---- rebuilding

  /**
   The node that `rebuildNetwork` makes of a dumped one. It passes the user-defined types where the
   constructor takes the address and leaves out the metrics prefix, so those are not what they were.
   */
  function Revived(node: Node): Node {
    node.(multiAddress := node.userDefinedTypes, userDefinedTypes := "", prometheusPrefix := DEFAULT_PREFIX)
  }

  const DEFAULT_PREFIX := "substrate"

  function RevivedAll(nodes: seq<Node>): (r: seq<Node>)
    ensures |r| == |nodes| && forall i :: 0 <= i < |nodes| ==> r[i] == Revived(nodes[i])
  {
    if nodes == [] then [] else RevivedAll(nodes[..|nodes| - 1]) + [Revived(nodes[|nodes| - 1])]
  }

  function ScopeOf(node: Node): Scope { if node.parachainId != 0 then ParaScope else Relay }

  /** One dumped node, put back. The dump carries no chain specification path for a parachain. */
  function PutBack(s: State, node: Node): Result<State, RegistryError> {
    var t := if node.parachainId != 0 then WithPara(s, node.parachainId, "") else s;
    WithNode(t, Revived(node), ScopeOf(node))
  }

  /** The companions are taken over as they were dumped. */
  function Rebuilt(companions: seq<Node>, nodes: seq<Node>): Result<State, RegistryError>
    decreases |nodes|
  {
    if nodes == [] then Ok(EMPTY.(companions := companions))
    else
      var s :- Rebuilt(companions, nodes[..|nodes| - 1]);
      PutBack(s, nodes[|nodes| - 1])
  }

  /** The nodes of the dumped table, in its order. */
  function Dump(s: State): (nodes: seq<Node>)
    ensures |nodes| == |s.nodesByName| && forall i :: 0 <= i < |nodes| ==> nodes[i] == s.nodesByName[i].1
  {
    seq(|s.nodesByName|, i requires 0 <= i < |s.nodesByName| => s.nodesByName[i].1)
  }

  /** `rebuildNetwork` on the dumped companions and nodes. It never refuses one. */
  method RebuildNetwork(companions: seq<Node>, nodes: seq<Node>) returns (network: Network)
    ensures fresh(network) && Rebuilt(companions, nodes) == Ok(network.View())
  {
    network := new Network();
    network.companions := companions;
    for i := 0 to |nodes|
      invariant fresh(network) && Rebuilt(companions, nodes[..i]) == Ok(network.View())
    {
      var node := nodes[i];
      assert nodes[..i + 1][..i] == nodes[..i];
      if node.parachainId != 0 {
        if node.parachainId !in network.paras {
          network.AddPara(node.parachainId, "");
        }
      }
      var r := network.AddNode(Revived(node), if node.parachainId != 0 then ParaScope else Relay);
    }
    assert nodes[..|nodes|] == nodes;
  }

  // ---- every index is a filter of one list

  function OfPara(nodes: seq<Node>, id: nat): (r: seq<Node>)
    ensures forall x :: x in r <==> x in nodes && x.parachainId == id
  {
    if nodes == [] then []
    else
      var n := |nodes| - 1;
      assert nodes == nodes[..n] + [nodes[n]];
      if nodes[n].parachainId == id then OfPara(nodes[..n], id) + [nodes[n]] else OfPara(nodes[..n], id)
  }

  function OfGroup(nodes: seq<Node>, g: string): (r: seq<Node>)
    ensures forall x :: x in r <==> x in nodes && x.group == g
  {
    if nodes == [] then []
    else
      var n := |nodes| - 1;
      assert nodes == nodes[..n] + [nodes[n]];
      if nodes[n].group == g then OfGroup(nodes[..n], g) + [nodes[n]] else OfGroup(nodes[..n], g)
  }

  ghost predicate DistinctNames(nodes: seq<Node>) {
    forall i, j :: 0 <= i < j < |nodes| ==> nodes[i].name != nodes[j].name
  }

  ghost predicate ParasAgree(paras: map<nat, Para>, nodes: seq<Node>) {
    && (forall id :: id in paras ==> id != 0 && paras[id].nodes == OfPara(nodes, id))
    && (forall id :: id != 0 && id !in paras ==> OfPara(nodes, id) == [])
  }

  ghost predicate GroupsAgree(groups: map<string, seq<Node>>, nodes: seq<Node>) {
    && (forall g :: g != "" ==> GroupOf(groups, g) == OfGroup(nodes, g))
    && (forall g :: g in groups ==> g != "" && groups[g] != [])
  }

  /** The parachains, the groups and the table by name agree with the nodes in the order they were added. */
  ghost predicate Agrees(s: State, nodes: seq<Node>) {
    && ParasAgree(s.paras, nodes) && GroupsAgree(s.groups, nodes)
    && |s.nodesByName| == |nodes|
    && forall i :: 0 <= i < |nodes| ==> s.nodesByName[i] == (nodes[i].name, nodes[i])
  }

  // ---- runs

  datatype Op = AddParaOp(id: nat, path: string) | AddNodeOp(node: Node, scope: Scope)

  function Run(ops: seq<Op>): Result<State, RegistryError> {
    if ops == [] then Ok(EMPTY)
    else
      var n := |ops| - 1;
      var s :- Run(ops[..n]);
      match ops[n]
      case AddParaOp(id, path) => Ok(WithPara(s, id, path))
      case AddNodeOp(node, scope) => WithNode(s, node, scope)
  }

  function Added(ops: seq<Op>): seq<Node> {
    if ops == [] then []
    else
      var n := |ops| - 1;
      match ops[n]
      case AddParaOp(_, _) => Added(ops[..n])
      case AddNodeOp(node, _) => Added(ops[..n]) + [node]
  }

  function AddedTo(ops: seq<Op>, scope: Scope): (r: seq<Node>)
    ensures forall x :: x in r ==> x in Added(ops)
  {
    if ops == [] then []
    else
      var n := |ops| - 1;
      match ops[n]
      case AddParaOp(_, _) => AddedTo(ops[..n], scope)
      case AddNodeOp(node, sc) => if sc == scope then AddedTo(ops[..n], scope) + [node] else AddedTo(ops[..n], scope)
  }

  /** Parachains have a number, and collators, no other nodes, have a parachain. */
  ghost predicate Sound(ops: seq<Op>) {
    forall i :: 0 <= i < |ops| ==>
      match ops[i]
      case AddParaOp(id, _) => id != 0
      case AddNodeOp(node, scope) => node.parachainId != 0 <==> scope == ParaScope
  }

  /** A run is refused exactly when a collator comes without a parachain, or before its parachain was added. */
  lemma {:induction false} RunIsRefusedIff(ops: seq<Op>)
    ensures Run(ops).Ok? <==>
            forall k :: 0 <= k < |ops| && ops[k].AddNodeOp? && ops[k].scope == ParaScope ==>
              && ops[k].node.parachainId != 0
              && exists j :: 0 <= j < k && ops[j].AddParaOp? && ops[j].id == ops[k].node.parachainId
    ensures Run(ops).Ok? ==>
              forall id :: id in Run(ops).value.paras <==>
                exists j :: 0 <= j < |ops| && ops[j].AddParaOp? && ops[j].id == id
  {
    if ops != [] {
      var n := |ops| - 1;
      RunIsRefusedIff(ops[..n]);
      assert forall k :: 0 <= k < n ==> ops[..n][k] == ops[k];
    }
  }

  lemma NodeKeepsAgreement(s: State, nodes: seq<Node>, node: Node, scope: Scope)
    requires Agrees(s, nodes) && DistinctNames(nodes + [node]) && (node.parachainId != 0 <==> scope == ParaScope)
    requires WithNode(s, node, scope).Ok?
    ensures Agrees(WithNode(s, node, scope).value, nodes + [node])
  {
    var t := WithNode(s, node, scope).value;
    NewName(s.nodesByName, nodes, node);
    GroupsStep(s.groups, t.groups, nodes, node);
  }

  lemma GroupsStep(before: map<string, seq<Node>>, after: map<string, seq<Node>>, nodes: seq<Node>, node: Node)
    requires GroupsAgree(before, nodes)
    requires after == if node.group == "" then before else before[node.group := GroupOf(before, node.group) + [node]]
    ensures GroupsAgree(after, nodes + [node])
  {
    var all := nodes + [node];
    assert all[..|nodes|] == nodes && all[|nodes|] == node;
  }

  /** A new name goes last in the table by name. */
  lemma NewName(table: Entries<string, Node>, nodes: seq<Node>, node: Node)
    requires |table| == |nodes| && forall i :: 0 <= i < |nodes| ==> table[i] == (nodes[i].name, nodes[i])
    requires DistinctNames(nodes + [node])
    ensures Set(table, node.name, node) == table + [(node.name, node)]
  {
    forall i | 0 <= i < |table| ensures table[i].0 != node.name {
      assert (nodes + [node])[i].name != (nodes + [node])[|nodes|].name;
    }
    Absent(table, node.name);
    SetAppends(table, node.name, node);
  }

  lemma {:induction false} Absent(table: Entries<string, Node>, name: string)
    requires forall i :: 0 <= i < |table| ==> table[i].0 != name
    ensures !Has(table, name)
  {
    if table != [] {
      Absent(table[1..], name);
    }
  }

  lemma DistinctPrefix(nodes: seq<Node>, node: Node)
    requires DistinctNames(nodes + [node])
    ensures DistinctNames(nodes)
  {
    forall i, j | 0 <= i < j < |nodes| ensures nodes[i].name != nodes[j].name {
      assert (nodes + [node])[i].name != (nodes + [node])[j].name;
    }
  }

  /**
   After any run with unique names every index agrees with what was added, in order: the relay list and
   the companions with the nodes of their scope, the other indices with all nodes.
   */
  lemma {:induction false} RunAgrees(ops: seq<Op>)
    requires Run(ops).Ok? && Sound(ops) && DistinctNames(Added(ops))
    ensures Agrees(Run(ops).value, Added(ops))
    ensures Run(ops).value.relay == AddedTo(ops, Relay) && Run(ops).value.companions == AddedTo(ops, Companion)
  {
    if ops != [] {
      var n := |ops| - 1;
      var before := ops[..n];
      if ops[n].AddNodeOp? {
        DistinctPrefix(Added(before), ops[n].node);
        RunAgrees(before);
        assert ops[n].node.parachainId != 0 <==> ops[n].scope == ParaScope;
        NodeKeepsAgreement(Run(before).value, Added(before), ops[n].node, ops[n].scope);
      } else {
        RunAgrees(before);
        assert ops[n].id != 0;
      }
    }
  }

  lemma {:induction false} InItsScopeOnly(ops: seq<Op>, k: nat, scope: Scope)
    requires DistinctNames(Added(ops)) && k < |ops| && ops[k].AddNodeOp?
    ensures ops[k].node in Added(ops)
    ensures ops[k].node in AddedTo(ops, scope) <==> ops[k].scope == scope
    decreases |ops|
  {
    var n := |ops| - 1;
    var before := ops[..n];
    if ops[n].AddNodeOp? {
      DistinctPrefix(Added(before), ops[n].node);
      DistinctOneMore(Added(before), ops[n].node);
    }
    if k < n {
      assert before[k] == ops[k];
      InItsScopeOnly(before, k, scope);
    }
  }

  /** Every added node is in the list of its scope and in no other, in its group, and found by its name. */
  lemma EveryNodeIsInItsListOnly(ops: seq<Op>, k: nat, id: nat)
    requires Run(ops).Ok? && Sound(ops) && DistinctNames(Added(ops))
    requires k < |ops| && ops[k].AddNodeOp?
    ensures var s, node := Run(ops).value, ops[k].node;
            && (node in s.relay <==> ops[k].scope == Relay)
            && (node in s.companions <==> ops[k].scope == Companion)
            && (id in s.paras ==> (node in s.paras[id].nodes <==> node.parachainId == id))
            && (ops[k].scope == ParaScope ==> node.parachainId in s.paras)
            && (node.group != "" ==> node.group in s.groups && node in s.groups[node.group])
            && Get(s.nodesByName, node.name) == Some(node)
  {
    RunAgrees(ops);
    InItsScopeOnly(ops, k, Relay);
    InItsScopeOnly(ops, k, Companion);
    assert ops[k].scope == ParaScope ==> ops[k].node.parachainId != 0;
    FoundByName(Run(ops).value, Added(ops), ops[k].node);
    InParaAndGroup(Run(ops).value, Added(ops), ops[k].node);
  }

  lemma InParaAndGroup(s: State, nodes: seq<Node>, node: Node)
    requires Agrees(s, nodes) && node in nodes
    ensures forall id :: id in s.paras ==> (node in s.paras[id].nodes <==> node.parachainId == id)
    ensures node.parachainId != 0 ==> node.parachainId in s.paras
    ensures node.group != "" ==> node.group in s.groups && node in s.groups[node.group]
  {
    assert node in OfPara(nodes, node.parachainId);
    if node.group != "" {
      assert node in GroupOf(s.groups, node.group);
    }
  }

  lemma FoundByName(s: State, nodes: seq<Node>, node: Node)
    requires Agrees(s, nodes) && DistinctNames(nodes) && node in nodes
    ensures Get(s.nodesByName, node.name) == Some(node)
  {
    var i :| 0 <= i < |nodes| && nodes[i] == node;
    assert DistinctKeys(s.nodesByName) by {
      forall a, b | 0 <= a < b < |nodes| ensures s.nodesByName[a].0 != s.nodesByName[b].0 {
        assert nodes[a].name != nodes[b].name;
      }
    }
    GetAt(s.nodesByName, i);
  }

  /** A lookup finds the node of that name, else the group of that name, else nothing. */
  lemma LookupFinds(ops: seq<Op>, name: string)
    requires Run(ops).Ok? && Sound(ops) && DistinctNames(Added(ops))
    ensures forall x :: x in Added(ops) && x.name == name ==> Nodes(Run(ops).value, name) == Ok([x])
    ensures name != "" && (forall x :: x in Added(ops) ==> x.name != name) ==>
              Nodes(Run(ops).value, name) ==
              if OfGroup(Added(ops), name) == [] then Err(NotPresent) else Ok(OfGroup(Added(ops), name))
  {
    RunAgrees(ops);
    var s, nodes := Run(ops).value, Added(ops);
    forall x | x in nodes && x.name == name ensures Nodes(s, name) == Ok([x]) {
      FoundByName(s, nodes, x);
    }
    if forall x :: x in nodes ==> x.name != name {
      forall i | 0 <= i < |s.nodesByName| ensures s.nodesByName[i].0 != name {
        assert nodes[i] in nodes;
      }
      Absent(s.nodesByName, name);
    }
  }

  // ---- dump and rebuild

  lemma {:induction false} OfParaRevived(nodes: seq<Node>, id: nat)
    ensures OfPara(RevivedAll(nodes), id) == RevivedAll(OfPara(nodes, id))
  {
    if nodes != [] {
      var n := |nodes| - 1;
      OfParaRevived(nodes[..n], id);
      var r := RevivedAll(nodes);
      assert r[..n] == RevivedAll(nodes[..n]);
      var p := OfPara(nodes[..n], id);
      assert (p + [nodes[n]])[..|p|] == p;
    }
  }

  lemma {:induction false} OfGroupRevived(nodes: seq<Node>, g: string)
    ensures OfGroup(RevivedAll(nodes), g) == RevivedAll(OfGroup(nodes, g))
  {
    if nodes != [] {
      var n := |nodes| - 1;
      OfGroupRevived(nodes[..n], g);
      var r := RevivedAll(nodes);
      assert r[..n] == RevivedAll(nodes[..n]);
      var p := OfGroup(nodes[..n], g);
      assert (p + [nodes[n]])[..|p|] == p;
    }
  }

  /** Putting one more node back keeps the rebuilt indices in agreement. */
  lemma PutBackKeepsAgreement(s: State, nodes: seq<Node>, node: Node)
    requires Agrees(s, nodes) && DistinctNames(nodes + [Revived(node)])
    ensures PutBack(s, node).Ok? && Agrees(PutBack(s, node).value, nodes + [Revived(node)])
    ensures forall id :: id in PutBack(s, node).value.paras <==>
              id in s.paras || (id != 0 && id == node.parachainId)
  {
    var t := if node.parachainId != 0 then WithPara(s, node.parachainId, "") else s;
    assert Agrees(t, nodes);
    NodeKeepsAgreement(t, nodes, Revived(node), ScopeOf(node));
  }

  /** Rebuilding nodes of unique names yields indices that agree with them. */
  lemma {:induction false} RebuiltAgrees(companions: seq<Node>, nodes: seq<Node>)
    requires DistinctNames(nodes)
    ensures Rebuilt(companions, nodes).Ok? && Agrees(Rebuilt(companions, nodes).value, RevivedAll(nodes))
    ensures forall id :: id in Rebuilt(companions, nodes).value.paras <==> id != 0 && OfPara(nodes, id) != []
    decreases |nodes|
  {
    if nodes != [] {
      var n := |nodes| - 1;
      RebuiltAgrees(companions, nodes[..n]);
      assert RevivedAll(nodes) == RevivedAll(nodes[..n]) + [Revived(nodes[n])];
      PutBackKeepsAgreement(Rebuilt(companions, nodes[..n]).value, RevivedAll(nodes[..n]), nodes[n]);
    }
  }

  /** Every node of no parachain becomes a relay node; the companions stay as they were dumped. */
  lemma {:induction false} RebuiltRelay(companions: seq<Node>, nodes: seq<Node>)
    requires Rebuilt(companions, nodes).Ok?
    ensures Rebuilt(companions, nodes).value.companions == companions
    ensures Rebuilt(companions, nodes).value.relay == RevivedAll(OfPara(nodes, 0))
    decreases |nodes|
  {
    if nodes != [] {
      var n := |nodes| - 1;
      RebuiltRelay(companions, nodes[..n]);
      var before := OfPara(nodes[..n], 0);
      assert (before + [nodes[n]])[..|before|] == before;
    }
  }

  lemma SameChains(s: State, t: State, nodes: seq<Node>)
    requires Agrees(s, nodes) && Agrees(t, RevivedAll(nodes))
    requires forall id :: id in t.paras <==> id != 0 && OfPara(nodes, id) != []
    ensures forall id :: id in t.paras <==> id in s.paras && s.paras[id].nodes != []
    ensures forall id :: id in t.paras ==> t.paras[id].nodes == RevivedAll(s.paras[id].nodes)
  {
    forall id | id in t.paras ensures t.paras[id].nodes == RevivedAll(OfPara(nodes, id)) {
      OfParaRevived(nodes, id);
    }
  }

  lemma SameGroups(s: State, t: State, nodes: seq<Node>)
    requires Agrees(s, nodes) && Agrees(t, RevivedAll(nodes))
    ensures forall g :: g in t.groups <==> g in s.groups
    ensures forall g :: g in t.groups ==> t.groups[g] == RevivedAll(s.groups[g])
  {
    forall g | g != ""
      ensures GroupOf(t.groups, g) == RevivedAll(GroupOf(s.groups, g)) && (g in t.groups <==> g in s.groups)
    {
      OfGroupRevived(nodes, g);
    }
    forall g | g in t.groups ensures t.groups[g] == RevivedAll(s.groups[g]) {
      assert GroupOf(t.groups, g) == RevivedAll(GroupOf(s.groups, g));
    }
  }

  /** The nodes of no parachain are the relay chain's and the companions. */
  lemma {:induction false} NoParaSplits(ops: seq<Op>)
    requires Sound(ops)
    ensures |OfPara(Added(ops), 0)| == |AddedTo(ops, Relay)| + |AddedTo(ops, Companion)|
    ensures AddedTo(ops, Companion) == [] ==> OfPara(Added(ops), 0) == AddedTo(ops, Relay)
  {
    if ops != [] {
      var n := |ops| - 1;
      NoParaSplits(ops[..n]);
      if ops[n].AddNodeOp? {
        assert ops[n].node.parachainId != 0 <==> ops[n].scope == ParaScope;
        var before := Added(ops[..n]);
        assert (before + [ops[n].node])[..|before|] == before;
      }
    }
  }

  /**
   Main result: dumping the network after any run with unique names and rebuilding it gives the same
   list for every parachain that has a node and the same groups, every node revived. The relay list comes
   back exactly when the network has no companion: companions are put back among the relay nodes.
   */
  lemma RebuildRestoresTheLists(ops: seq<Op>)
    requires Run(ops).Ok? && Sound(ops) && DistinctNames(Added(ops))
    ensures var s := Run(ops).value; Rebuilt(s.companions, Dump(s)).Ok?
    ensures var s := Run(ops).value;
            var t := Rebuilt(s.companions, Dump(s)).value;
            && (t.relay == RevivedAll(s.relay) <==> s.companions == [])
            && t.relay == RevivedAll(OfPara(Dump(s), 0))
            && t.companions == s.companions
            && (forall id :: id in t.paras <==> id in s.paras && s.paras[id].nodes != [])
            && (forall id :: id in t.paras ==> t.paras[id].nodes == RevivedAll(s.paras[id].nodes))
            && (forall g :: g in t.groups <==> g in s.groups)
            && (forall g :: g in t.groups ==> t.groups[g] == RevivedAll(s.groups[g]))
            && Dump(t) == RevivedAll(Dump(s))
  {
    RunAgrees(ops);
    NoParaSplits(ops);
    var s, nodes := Run(ops).value, Added(ops);
    assert Dump(s) == nodes;
    RebuiltAgrees(s.companions, nodes);
    RebuiltRelay(s.companions, nodes);
    var t := Rebuilt(s.companions, nodes).value;
    assert t.relay == RevivedAll(s.relay) ==> |OfPara(nodes, 0)| == |s.relay|;
    SameChains(s, t, nodes);
    SameGroups(s, t, nodes);
    assert Dump(t) == RevivedAll(nodes);
  }

  lemma OneComesBack(node: Node)
    requires node.parachainId == 0
    ensures Rebuilt([node], [node]).Ok?
    ensures Rebuilt([node], [node]).value.relay == [Revived(node)]
    ensures Rebuilt([node], [node]).value.companions == [node]
  {
    assert [node][..0] == [];
    assert Rebuilt([node], [node][..0]) == Ok(EMPTY.(companions := [node]));
  }

  /** A concrete failure: a network of one companion comes back with it among the relay nodes as well. */
  lemma CompanionBecomesRelay(node: Node)
    requires node.parachainId == 0
    ensures var ops := [AddNodeOp(node, Companion)];
            && Run(ops).Ok?
            && var s := Run(ops).value;
               && s.relay == [] && s.companions == [node]
               && Rebuilt(s.companions, Dump(s)).Ok?
               && Rebuilt(s.companions, Dump(s)).value.relay == [Revived(node)]
               && Rebuilt(s.companions, Dump(s)).value.companions == [node]
  {
    var ops := [AddNodeOp(node, Companion)];
    assert ops[..0] == [];
    assert Run(ops[..0]) == Ok(EMPTY);
    var s := WithNode(EMPTY, node, Companion).value;
    assert Run(ops) == Ok(s);
    assert Dump(s) == [node];
    OneComesBack(node);
  }

  /** What reviving keeps: everything the lists go by, and the addresses a client connects to. */
  lemma RevivedKeeps(node: Node)
    ensures var r := Revived(node);
            && r.name == node.name && r.wsUri == node.wsUri && r.prometheusUri == node.prometheusUri
            && r.parachainId == node.parachainId && r.group == node.group
            && r.multiAddress == node.userDefinedTypes && r.userDefinedTypes == "" && r.prometheusPrefix == "substrate"
    ensures Revived(node) == node <==>
            node.multiAddress == node.userDefinedTypes == "" && node.prometheusPrefix == DEFAULT_PREFIX
  {
  }

  /** The table by name forgets nodes exactly when a name was used twice. */
  lemma {:induction false} NothingForgottenIff(ops: seq<Op>)
    requires Run(ops).Ok?
    ensures |Dump(Run(ops).value)| <= |Added(ops)|
    ensures |Dump(Run(ops).value)| == |Added(ops)| <==> DistinctNames(Added(ops))
    ensures forall name :: Has(Run(ops).value.nodesByName, name) <==> exists x :: x in Added(ops) && x.name == name
    ensures DistinctKeys(Run(ops).value.nodesByName)
  {
    if ops != [] {
      var n := |ops| - 1;
      NothingForgottenIff(ops[..n]);
      if ops[n].AddNodeOp? {
        var node, table, nodes := ops[n].node, Run(ops[..n]).value.nodesByName, Added(ops[..n]);
        TableStep(table, node);
        DistinctOneMore(nodes, node);
        assert forall x :: x in nodes + [node] <==> x in nodes || x == node;
      }
    }
  }

  lemma TableStep(table: Entries<string, Node>, node: Node)
    requires DistinctKeys(table)
    ensures var after := Set(table, node.name, node);
            && DistinctKeys(after)
            && |after| == |table| + (if Has(table, node.name) then 0 else 1)
            && forall name :: Has(after, name) <==> name == node.name || Has(table, name)
  {
    SetAt(table, node.name, node);
    forall name ensures Has(Set(table, node.name, node), name) <==> name == node.name || Has(table, name) {
      GetAfterSet(table, node.name, node, name);
    }
  }

  lemma DistinctOneMore(nodes: seq<Node>, node: Node)
    ensures DistinctNames(nodes + [node]) <==> DistinctNames(nodes) && forall x :: x in nodes ==> x.name != node.name
  {
    var all := nodes + [node];
    if DistinctNames(all) {
      DistinctPrefix(nodes, node);
      forall x | x in nodes ensures x.name != node.name {
        var i :| 0 <= i < |nodes| && nodes[i] == x;
        assert all[i].name != all[|nodes|].name;
      }
    }
  }
}
