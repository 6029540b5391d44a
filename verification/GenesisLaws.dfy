/** What the genesis pipeline of module `Genesis` leaves: authorities, solvency, nominations. */
module GenesisLaws {
  import opened Wrappers
  import opened OrderedMap
  import opened Sampling
  import opened Genesis

  /** The run stops early exactly when nominators are asked for that cannot be made. */
  lemma FinishesIff(net: RelayChain, c: RuntimeConfig, bond: Option<int>, useSession: bool, w: World)
    ensures Final(net, c, bond, useSession, w).Ok? <==>
            || net.nominators == 0
            || c.staking.None?
            || (BondFound(c, bond).Some? && c.balances.Some? && Validators(net.nodes) != [] && net.maxNominations > 0)
  {
    BeforeStaking(net, c, bond, useSession, w);
  }

  // ---- the validator loop in closed form

  ghost function Stakers(nodes: seq<Node>, bond: Option<int>): (s: seq<Staker>)
    ensures |s| == |nodes| && forall i :: 0 <= i < |nodes| ==> s[i] == ValidatorStaker(nodes[i], bond)
  {
    if nodes == [] then []
    else Stakers(nodes[..|nodes| - 1], bond) + [ValidatorStaker(nodes[|nodes| - 1], bond)]
  }

  ghost function Keys(nodes: seq<Node>, useStash: bool, w: World): (keys: seq<Key>)
    ensures |keys| == |nodes| && forall i :: 0 <= i < |nodes| ==> keys[i] == w.nodeKey(nodes[i], useStash)
  {
    if nodes == [] then []
    else Keys(nodes[..|nodes| - 1], useStash, w) + [w.nodeKey(nodes[|nodes| - 1], useStash)]
  }

  ghost function AuraKeys(nodes: seq<Node>): (keys: seq<string>)
    ensures |keys| == |nodes| && forall i :: 0 <= i < |nodes| ==> keys[i] == nodes[i].accounts.sr
  {
    if nodes == [] then [] else AuraKeys(nodes[..|nodes| - 1]) + [nodes[|nodes| - 1].accounts.sr]
  }

  ghost function GrandpaKeys(nodes: seq<Node>): (keys: seq<(string, int)>)
    ensures |keys| == |nodes| && forall i :: 0 <= i < |nodes| ==> keys[i] == (nodes[i].accounts.ed, 1)
  {
    if nodes == [] then [] else GrandpaKeys(nodes[..|nodes| - 1]) + [(nodes[|nodes| - 1].accounts.ed, 1)]
  }

  ghost function Invulnerables(nodes: seq<Node>): (stashes: seq<string>)
    ensures forall s :: s in stashes <==>
              exists i :: 0 <= i < |nodes| && nodes[i].invulnerable && nodes[i].accounts.stash == s
  {
    if nodes == [] then []
    else
      var n := |nodes| - 1;
      var before := Invulnerables(nodes[..n]);
      assert forall i :: 0 <= i < n ==> nodes[..n][i] == nodes[i];
      if nodes[n].invulnerable then before + [nodes[n].accounts.stash] else before
  }

  ghost function Append<T>(o: Option<seq<T>>, more: seq<T>): Option<seq<T>> {
    if o.Some? then Some(o.value + more) else None
  }

  ghost function StakingClosed(s: Option<Staking>, validators: seq<Node>, bond: Option<int>): (r: Option<Staking>)
    ensures r.Some? <==> s.Some?
  {
    if s.None? then None
    else Some(Staking(s.value.stakers + Stakers(validators, bond),
                      s.value.invulnerables + Invulnerables(validators),
                      s.value.validatorCount + |validators|))
  }

  lemma {:induction false} ValidatorsClosed(
      c: RuntimeConfig, nodes: seq<Node>, bond: Option<int>, useSession: bool, useStash: bool, w: World)
    ensures var v := Validators(nodes);
            WithValidators(c, nodes, bond, useSession, useStash, w) ==
            c.(staking := StakingClosed(c.staking, v, bond),
               session := if useSession then Append(c.session, Keys(v, useStash, w)) else c.session,
               aura := if useSession then c.aura else Append(c.aura, AuraKeys(v)),
               grandpa := if useSession then c.grandpa else Append(c.grandpa, GrandpaKeys(v)))
    decreases |nodes|
  {
    if nodes == [] {
      AppendNothing(c);
    } else {
      var n := |nodes| - 1;
      ValidatorsClosed(c, nodes[..n], bond, useSession, useStash, w);
      if nodes[n].validator {
        var v := Validators(nodes[..n]);
        assert (v + [nodes[n]])[..|v|] == v;
        StakingStep(c.staking, v, nodes[n], bond);
        AppendStep(c.session, Keys(v, useStash, w), w.nodeKey(nodes[n], useStash));
        AppendStep(c.aura, AuraKeys(v), nodes[n].accounts.sr);
        AppendStep(c.grandpa, GrandpaKeys(v), (nodes[n].accounts.ed, 1));
      }
    }
  }

  lemma AppendNothing(c: RuntimeConfig)
    ensures StakingClosed(c.staking, [], None) == c.staking
    ensures Append(c.session, []) == c.session && Append(c.aura, []) == c.aura && Append(c.grandpa, []) == c.grandpa
    ensures forall bond :: StakingClosed(c.staking, [], bond) == c.staking
  {
    if c.staking.Some? {
      assert c.staking.value.stakers + [] == c.staking.value.stakers;
      assert c.staking.value.invulnerables + [] == c.staking.value.invulnerables;
    }
    if c.session.Some? { assert c.session.value + [] == c.session.value; }
    if c.aura.Some? { assert c.aura.value + [] == c.aura.value; }
    if c.grandpa.Some? { assert c.grandpa.value + [] == c.grandpa.value; }
  }

  lemma AppendStep<T>(o: Option<seq<T>>, more: seq<T>, x: T)
    ensures Push(Append(o, more), x) == Append(o, more + [x])
  {
    if o.Some? {
      assert o.value + more + [x] == o.value + (more + [x]);
    }
  }

  lemma StakingStep(s: Option<Staking>, v: seq<Node>, node: Node, bond: Option<int>)
    ensures forall c: RuntimeConfig :: c.staking == StakingClosed(s, v, bond) ==>
              WithStaking(c, node, bond) == c.(staking := StakingClosed(s, v + [node], bond))
  {
    assert (v + [node])[..|v|] == v;
    if s.Some? {
      var x := s.value;
      var one := ValidatorStaker(node, bond);
      assert x.stakers + Stakers(v, bond) + [one] == x.stakers + (Stakers(v, bond) + [one]);
      assert x.invulnerables + Invulnerables(v) + [node.accounts.stash] ==
             x.invulnerables + (Invulnerables(v) + [node.accounts.stash]);
    }
  }

  /** The staking and balances before nominators are added. */
  lemma BeforeStaking(net: RelayChain, c: RuntimeConfig, bond: Option<int>, useSession: bool, w: World)
    ensures var p, b, v := BeforeNominators(net, c, bond, useSession, w), BondFound(c, bond), Validators(net.nodes);
            && p.staking.Some? == c.staking.Some?
            && (c.staking.Some? && !c.parachainInfo ==>
                  p.staking == Some(Staking(Stakers(v, b), Invulnerables(v), |v|)))
            && p.balances == if c.balances.Some? then Some(GrantAll(AsMap(c.balances.value), net.nodes, b)) else None
  {
    var b, v := BondFound(c, bond), Validators(net.nodes);
    var c1 := WithBalances(Cleared(c), net.nodes, b);
    ValidatorsClosed(c1, net.nodes, b, useSession, net.useStash, w);
    assert c1.staking.Some? == c.staking.Some?;
    if c.staking.Some? && !c.parachainInfo {
      assert c1.staking == Some(Staking([], [], 0));
    }
    FreshStaking(v, b);
  }

  /** The authorities before nominators are added. */
  lemma BeforeKeys(net: RelayChain, c: RuntimeConfig, bond: Option<int>, useSession: bool, w: World)
    ensures var p, b, v := BeforeNominators(net, c, bond, useSession, w), BondFound(c, bond), Validators(net.nodes);
            && p.session ==
               (if c.session.Some? && useSession then Some(Keys(v, net.useStash, w)) else Emptied(c.session))
            && p.aura == (if c.aura.Some? && !useSession then Some(AuraKeys(v)) else Emptied(c.aura))
            && p.grandpa == (if c.grandpa.Some? && !useSession then Some(GrandpaKeys(v)) else Emptied(c.grandpa))
  {
    var b, v := BondFound(c, bond), Validators(net.nodes);
    var start := WithBalances(Cleared(c), net.nodes, b);
    ClearedKeys(c, net.nodes, b);
    ValidatorsClosed(start, net.nodes, b, useSession, net.useStash, w);
    AppendToEmptied(c.session, Keys(v, net.useStash, w));
    AppendToEmptied(c.aura, AuraKeys(v));
    AppendToEmptied(c.grandpa, GrandpaKeys(v));
  }

  lemma ClearedKeys(c: RuntimeConfig, nodes: seq<Node>, b: Option<int>)
    ensures var start := WithBalances(Cleared(c), nodes, b);
            start.session == Emptied(c.session) && start.aura == Emptied(c.aura) && start.grandpa == Emptied(c.grandpa)
  {
  }

  lemma AppendToEmptied<T>(o: Option<seq<T>>, more: seq<T>)
    ensures Append(Emptied(o), more) == if o.Some? then Some(more) else None
  {
    assert [] + more == more;
  }

  lemma FreshStaking(v: seq<Node>, b: Option<int>)
    ensures StakingClosed(Some(Staking([], [], 0)), v, b) == Some(Staking(Stakers(v, b), Invulnerables(v), |v|))
  {
    assert [] + Stakers(v, b) == Stakers(v, b) && [] + Invulnerables(v) == Invulnerables(v);
  }

  // ---- authorities

  ghost function CountValidators(stakers: seq<Staker>): nat {
    if stakers == [] then 0
    else CountValidators(stakers[1..]) + if stakers[0].role == Validator then 1 else 0
  }

  lemma {:induction false} CountSplits(a: seq<Staker>, b: seq<Staker>)
    ensures CountValidators(a + b) == CountValidators(a) + CountValidators(b)
  {
    if a == [] {
      assert a + b == b;
    } else {
      assert (a + b)[1..] == a[1..] + b;
      CountSplits(a[1..], b);
    }
  }

  lemma {:induction false} CountAll(stakers: seq<Staker>, tagged: bool)
    requires forall i :: 0 <= i < |stakers| ==> (stakers[i].role == Validator) == tagged
    ensures CountValidators(stakers) == if tagged then |stakers| else 0
  {
    if stakers != [] {
      CountAll(stakers[1..], tagged);
    }
  }

  /**
   On a relay chain with `session` and `staking`: one session key a validator node, in order; the
   recorded count is the number of validator nodes and of stakers tagged so; the invulnerables are
   the stashes of the invulnerable validators; the stakers are the validators and the nominators.
   */
  lemma AuthoritiesAreConsistent(net: RelayChain, c: RuntimeConfig, bond: Option<int>, w: World)
    requires c.session.Some? && c.staking.Some? && !c.parachainInfo
    requires Final(net, c, bond, true, w).Ok?
    ensures var f, v := Final(net, c, bond, true, w).value, Validators(net.nodes);
            && f.session == Some(Keys(v, net.useStash, w))
            && f.staking.Some?
            && f.staking.value.validatorCount == |v| == CountValidators(f.staking.value.stakers)
            && f.staking.value.invulnerables == Invulnerables(v)
            && |f.staking.value.stakers| == |v| + net.nominators
            && f.staking.value.stakers[..|v|] == Stakers(v, BondFound(c, bond))
            && forall i :: |v| <= i < |f.staking.value.stakers| ==> f.staking.value.stakers[i].role.Nominator?
  {
    var b, v := BondFound(c, bond), Validators(net.nodes);
    var f := Final(net, c, bond, true, w).value;
    assert f.session == Some(Keys(v, net.useStash, w)) by {
      BeforeKeys(net, c, bond, true, w);
    }
    assert f.staking.value.validatorCount == |v| && f.staking.value.invulnerables == Invulnerables(v) by {
      BeforeStaking(net, c, bond, true, w);
    }
    FinalStakers(net, c, bond, true, w);
    StakersAreCounted(f.staking.value.stakers, net, b, w);
  }

  lemma StakersAreCounted(stakers: seq<Staker>, net: RelayChain, b: Option<int>, w: World)
    requires ValidatorsThenNominators(stakers, net, b, w)
    ensures var v := Validators(net.nodes);
            && CountValidators(stakers) == |v|
            && stakers[..|v|] == Stakers(v, b)
            && forall i :: |v| <= i < |stakers| ==> stakers[i].role.Nominator?
  {
    var v := Validators(net.nodes);
    assert stakers[..|v|] == Stakers(v, b);
    CountFirst(stakers, |v|);
  }

  lemma CountFirst(stakers: seq<Staker>, n: nat)
    requires n <= |stakers|
    requires forall i :: 0 <= i < n ==> stakers[i].role == Validator
    requires forall i :: n <= i < |stakers| ==> stakers[i].role.Nominator?
    ensures CountValidators(stakers) == n
  {
    CountAll(stakers[..n], true);
    CountAll(stakers[n..], false);
    CountSplits(stakers[..n], stakers[n..]);
    assert stakers[..n] + stakers[n..] == stakers;
  }

  /**
   Without session keys the authorities go to `aura` and `grandpa`, to those of them there are, one a
   validator node, in order; `session` is left empty.
   */
  lemma AuraAuthorities(net: RelayChain, c: RuntimeConfig, bond: Option<int>, w: World)
    requires Final(net, c, bond, false, w).Ok?
    ensures var f, v := Final(net, c, bond, false, w).value, Validators(net.nodes);
            && f.aura == (if c.aura.Some? then Some(AuraKeys(v)) else None)
            && f.grandpa == (if c.grandpa.Some? then Some(GrandpaKeys(v)) else None)
            && f.session == Emptied(c.session)
  {
    BeforeKeys(net, c, bond, false, w);
  }

  // ---- balances

  /** What the last node with a balance and that stash is granted. */
  ghost function LastGrant(nodes: seq<Node>, bond: Option<int>, stash: string): Option<int> {
    if nodes == [] then None
    else
      var node := nodes[|nodes| - 1];
      if node.balance != 0 && node.accounts.stash == stash then Some(Granted(node, bond))
      else LastGrant(nodes[..|nodes| - 1], bond, stash)
  }

  lemma {:induction false} GrantsRead(balances: Balances, nodes: seq<Node>, bond: Option<int>, stash: string)
    requires DistinctKeys(balances)
    ensures DistinctKeys(GrantAll(balances, nodes, bond))
    ensures Get(GrantAll(balances, nodes, bond), stash) ==
            if LastGrant(nodes, bond, stash).Some? then LastGrant(nodes, bond, stash) else Get(balances, stash)
    decreases |nodes|
  {
    if nodes != [] {
      var n := |nodes| - 1;
      GrantsRead(balances, nodes[..n], bond, stash);
      var before := GrantAll(balances, nodes[..n], bond);
      SetAt(before, nodes[n].accounts.stash, Granted(nodes[n], bond));
      GetAfterSet(before, nodes[n].accounts.stash, Granted(nodes[n], bond), stash);
    }
  }

  lemma {:induction false} AsMapDistinct(balances: Balances)
    ensures DistinctKeys(AsMap(balances))
  {
    if balances != [] {
      var n := |balances| - 1;
      AsMapDistinct(balances[..n]);
      SetAt(AsMap(balances[..n]), balances[n].0, balances[n].1);
    }
  }

  lemma {:induction false} AsMapOfDistinct(balances: Balances)
    requires DistinctKeys(balances)
    ensures AsMap(balances) == balances
  {
    if balances != [] {
      var n := |balances| - 1;
      AsMapOfDistinct(balances[..n]);
      SetAt(balances[..n], balances[n].0, balances[n].1);
      assert balances[..n] + [(balances[n].0, balances[n].1)] == balances;
    }
  }

  /** Appending entries of other accounts does not change what an account reads. */
  lemma {:induction false} AsMapAppend(balances: Balances, more: Balances, a: string)
    requires forall i :: 0 <= i < |more| ==> more[i].0 != a
    ensures Get(AsMap(balances + more), a) == Get(AsMap(balances), a)
    decreases |more|
  {
    if more == [] {
      assert balances + more == balances;
    } else {
      var n := |more| - 1;
      AsMapAppend(balances, more[..n], a);
      assert (balances + more)[..|balances| + n] == balances + more[..n];
      GetAfterSet(AsMap(balances + more[..n]), more[n].0, more[n].1, a);
    }
  }

  /** The balances before and after the nominators' are added. */
  ghost function NodeBalances(net: RelayChain, c: RuntimeConfig, bond: Option<int>): Balances
    requires c.balances.Some?
  {
    GrantAll(AsMap(c.balances.value), net.nodes, BondFound(c, bond))
  }

  lemma FinalBalances(net: RelayChain, c: RuntimeConfig, bond: Option<int>, useSession: bool, w: World)
    requires c.balances.Some? && Final(net, c, bond, useSession, w).Ok?
    ensures var f, b := Final(net, c, bond, useSession, w).value, BondFound(c, bond);
            && DistinctKeys(NodeBalances(net, c, bond))
            && f.balances.Some?
            && (c.staking.None? || net.nominators == 0 ==> f.balances.value == NodeBalances(net, c, bond))
            && (c.staking.Some? && net.nominators > 0 ==>
                  && b.Some?
                  && f.balances.value == NodeBalances(net, c, bond) + NominatorBalances(net.nominators, b.value, w))
  {
    var b := BondFound(c, bond);
    BeforeStaking(net, c, bond, useSession, w);
    AsMapDistinct(c.balances.value);
    GrantsRead(AsMap(c.balances.value), net.nodes, b, "");
  }

  /** An account that is neither a funded node's stash nor a nominator keeps what it had. */
  lemma OthersKeepTheirBalance(
      net: RelayChain, c: RuntimeConfig, bond: Option<int>, useSession: bool, w: World, a: string)
    requires c.balances.Some? && Final(net, c, bond, useSession, w).Ok?
    requires forall i :: 0 <= i < |net.nodes| && net.nodes[i].balance != 0 ==> net.nodes[i].accounts.stash != a
    requires forall i :: 0 <= i < net.nominators ==> w.nominatorAddress(i) != a
    ensures Final(net, c, bond, useSession, w).value.balances.Some?
    ensures Get(AsMap(Final(net, c, bond, useSession, w).value.balances.value), a) == Get(AsMap(c.balances.value), a)
  {
    var b, nb := BondFound(c, bond), NodeBalances(net, c, bond);
    FinalBalances(net, c, bond, useSession, w);
    AsMapDistinct(c.balances.value);
    GrantsRead(AsMap(c.balances.value), net.nodes, b, a);
    NoGrant(net.nodes, b, a);
    AsMapOfDistinct(nb);
    if c.staking.Some? && net.nominators > 0 {
      AsMapAppend(nb, NominatorBalances(net.nominators, b.value, w), a);
    }
  }

  lemma {:induction false} NoGrant(nodes: seq<Node>, bond: Option<int>, a: string)
    requires forall i :: 0 <= i < |nodes| && nodes[i].balance != 0 ==> nodes[i].accounts.stash != a
    ensures LastGrant(nodes, bond, a) == None
    decreases |nodes|
  {
    if nodes != [] {
      NoGrant(nodes[..|nodes| - 1], bond, a);
    }
  }

  // ---- solvency

  ghost predicate Covered(s: Staker, balances: Balances) {
    exists j :: 0 <= j < |balances| && balances[j].0 == s.stash && balances[j].1 > s.bond
  }

  /** Every staker owns more than its bond. */
  ghost predicate Solvent(c: RuntimeConfig)
    requires c.staking.Some? && c.balances.Some?
  {
    forall i :: 0 <= i < |c.staking.value.stakers| ==> Covered(c.staking.value.stakers[i], c.balances.value)
  }

  /** The account owns more than `amount`. */
  ghost predicate Owns(balances: Balances, stash: string, amount: int) {
    Has(balances, stash) && Get(balances, stash).value > amount
  }

  lemma CoveredIffOwns(s: Staker, balances: Balances)
    requires DistinctKeys(balances)
    ensures Covered(s, balances) <==> Owns(balances, s.stash, s.bond)
  {
    if Covered(s, balances) {
      var j :| 0 <= j < |balances| && balances[j].0 == s.stash && balances[j].1 > s.bond;
      GetAt(balances, j);
    }
    if Owns(balances, s.stash, s.bond) {
      var j := GetFinds(balances, s.stash);
    }
  }

  ghost predicate ValidatorsThenNominators(stakers: seq<Staker>, net: RelayChain, b: Option<int>, w: World) {
    var v := Validators(net.nodes);
    && |stakers| == |v| + net.nominators
    && (forall i :: 0 <= i < |v| ==> stakers[i] == ValidatorStaker(v[i], b))
    && (net.nominators > 0 ==>
          && b.Some? && v != [] && net.maxNominations > 0
          && forall i :: |v| <= i < |stakers| ==>
               stakers[i] == NominatorStaker(i - |v|, Stashes(v), net.maxNominations, b.value, w))
  }

  /** The stakers of a finished run on a relay chain. */
  lemma FinalStakers(net: RelayChain, c: RuntimeConfig, bond: Option<int>, useSession: bool, w: World)
    requires c.staking.Some? && !c.parachainInfo && Final(net, c, bond, useSession, w).Ok?
    ensures var f := Final(net, c, bond, useSession, w).value;
            f.staking.Some? && ValidatorsThenNominators(f.staking.value.stakers, net, BondFound(c, bond), w)
  {
    BeforeStaking(net, c, bond, useSession, w);
  }

  /**
   A finished run is solvent exactly when every validator's stash, after the nodes' grants, owns more
   than a validator's bond, or is a nominator's account too; the nominators always own one unit more than
   their bond.
   */
  lemma SolventIffValidatorsOwn(net: RelayChain, c: RuntimeConfig, bond: Option<int>, useSession: bool, w: World)
    requires c.staking.Some? && c.balances.Some? && !c.parachainInfo
    requires Final(net, c, bond, useSession, w).Ok?
    ensures Final(net, c, bond, useSession, w).value.staking.Some?
    ensures Final(net, c, bond, useSession, w).value.balances.Some?
    ensures Solvent(Final(net, c, bond, useSession, w).value) <==>
            forall v :: v in Validators(net.nodes) ==>
              || Owns(NodeBalances(net, c, bond), v.accounts.stash, ValidatorBond(BondFound(c, bond)))
              || NominatorPays(net, BondFound(c, bond), w, v.accounts.stash)
  {
    var f, b, nb := Final(net, c, bond, useSession, w).value, BondFound(c, bond), NodeBalances(net, c, bond);
    FinalBalances(net, c, bond, useSession, w);
    FinalStakers(net, c, bond, useSession, w);
    var stakers, balances, v := f.staking.value.stakers, f.balances.value, Validators(net.nodes);
    if net.nominators > 0 {
      NominatorsCovered(stakers, balances, nb, net, b, w);
    }
    forall i | 0 <= i < |v|
      ensures Covered(stakers[i], balances) <==>
              Owns(nb, v[i].accounts.stash, ValidatorBond(b)) || NominatorPays(net, b, w, v[i].accounts.stash)
    {
      ValidatorCovered(v[i], b, nb, balances, net, w);
    }
    SolventParts(stakers, balances, v, b, nb, net, w);
  }

  /** The account is a nominator's, whose balance exceeds a validator's bond. */
  ghost predicate NominatorPays(net: RelayChain, b: Option<int>, w: World, stash: string) {
    && b.Some? && b.value + 1 > ValidatorBond(b)
    && exists i :: 0 <= i < net.nominators && w.nominatorAddress(i) == stash
  }

  lemma NominatorsCovered(
      stakers: seq<Staker>, balances: Balances, nb: Balances, net: RelayChain, b: Option<int>, w: World)
    requires ValidatorsThenNominators(stakers, net, b, w) && net.nominators > 0
    requires balances == nb + NominatorBalances(net.nominators, b.value, w)
    ensures forall i :: |Validators(net.nodes)| <= i < |stakers| ==> Covered(stakers[i], balances)
  {
    var v := Validators(net.nodes);
    forall i | |v| <= i < |stakers| ensures Covered(stakers[i], balances) {
      NominatorCovered(i - |v|, net, b.value, w, nb);
    }
  }

  lemma SolventParts(
      stakers: seq<Staker>, balances: Balances, v: seq<Node>, b: Option<int>, nb: Balances, net: RelayChain, w: World)
    requires |v| <= |stakers|
    requires forall i :: 0 <= i < |v| ==>
               (Covered(stakers[i], balances) <==>
                Owns(nb, v[i].accounts.stash, ValidatorBond(b)) || NominatorPays(net, b, w, v[i].accounts.stash))
    requires forall i :: |v| <= i < |stakers| ==> Covered(stakers[i], balances)
    ensures (forall i :: 0 <= i < |stakers| ==> Covered(stakers[i], balances)) <==>
            forall x :: x in v ==>
              Owns(nb, x.accounts.stash, ValidatorBond(b)) || NominatorPays(net, b, w, x.accounts.stash)
  {
    if forall i :: 0 <= i < |stakers| ==> Covered(stakers[i], balances) {
      forall x | x in v
        ensures Owns(nb, x.accounts.stash, ValidatorBond(b)) || NominatorPays(net, b, w, x.accounts.stash)
      {
        var i :| 0 <= i < |v| && v[i] == x;
        assert Covered(stakers[i], balances);
      }
    }
  }

  lemma ValidatorCovered(v: Node, b: Option<int>, nb: Balances, balances: Balances, net: RelayChain, w: World)
    requires DistinctKeys(nb)
    requires if net.nominators == 0 then balances == nb
             else b.Some? && balances == nb + NominatorBalances(net.nominators, b.value, w)
    ensures Covered(ValidatorStaker(v, b), balances) <==>
            Owns(nb, v.accounts.stash, ValidatorBond(b)) || NominatorPays(net, b, w, v.accounts.stash)
  {
    var s := ValidatorStaker(v, b);
    CoveredIffOwns(s, nb);
    if net.nominators > 0 {
      var more := NominatorBalances(net.nominators, b.value, w);
      CoveredAppend(s, nb, more);
      if NominatorPays(net, b, w, s.stash) {
        var i :| 0 <= i < net.nominators && w.nominatorAddress(i) == s.stash;
        assert more[i].0 == s.stash && more[i].1 > s.bond;
      }
    }
  }

  /** Appended entries cover what they cover. */
  lemma CoveredAppend(s: Staker, balances: Balances, more: Balances)
    ensures Covered(s, balances + more) <==> Covered(s, balances) || Covered(s, more)
  {
    if Covered(s, balances) {
      var j :| 0 <= j < |balances| && balances[j].0 == s.stash && balances[j].1 > s.bond;
      assert (balances + more)[j] == balances[j];
    }
    if Covered(s, more) {
      var j :| 0 <= j < |more| && more[j].0 == s.stash && more[j].1 > s.bond;
      assert (balances + more)[|balances| + j] == more[j];
    }
  }

  lemma NominatorCovered(i: nat, net: RelayChain, bond: int, w: World, balances: Balances)
    requires i < net.nominators && Validators(net.nodes) != [] && net.maxNominations > 0
    ensures Covered(NominatorStaker(i, Stashes(Validators(net.nodes)), net.maxNominations, bond, w),
                    balances + NominatorBalances(net.nominators, bond, w))
  {
    var more := NominatorBalances(net.nominators, bond, w);
    assert (balances + more)[|balances| + i] == more[i] == (w.nominatorAddress(i), bond + 1);
  }

  /** Some node funds the stash. */
  ghost predicate Funded(nodes: seq<Node>, stash: string) {
    exists i :: 0 <= i < |nodes| && nodes[i].balance != 0 && nodes[i].accounts.stash == stash
  }

  lemma {:induction false} FundedIffGranted(nodes: seq<Node>, bond: Option<int>, stash: string)
    requires bond.Some? && bond.value > 0
    ensures LastGrant(nodes, bond, stash).Some? <==> Funded(nodes, stash)
    ensures LastGrant(nodes, bond, stash).Some? ==> LastGrant(nodes, bond, stash).value > bond.value
    decreases |nodes|
  {
    if nodes != [] {
      var n := |nodes| - 1;
      FundedIffGranted(nodes[..n], bond, stash);
      if Funded(nodes[..n], stash) {
        var i :| 0 <= i < n && nodes[..n][i].balance != 0 && nodes[..n][i].accounts.stash == stash;
        assert nodes[i] == nodes[..n][i];
      }
      if Funded(nodes, stash) && !(nodes[n].balance != 0 && nodes[n].accounts.stash == stash) {
        var i :| 0 <= i < |nodes| && nodes[i].balance != 0 && nodes[i].accounts.stash == stash;
        assert nodes[..n][i] == nodes[i];
      }
    }
  }

  /**
   Main result on solvency: when clearing found a positive bond, the run is solvent exactly when every
   validator's stash is funded by some node, owned more than the bond before, or is a nominator's account.
   */
  lemma SolventIffFunded(net: RelayChain, c: RuntimeConfig, bond: Option<int>, useSession: bool, w: World)
    requires c.staking.Some? && c.balances.Some? && !c.parachainInfo
    requires BondFound(c, bond).Some? && BondFound(c, bond).value > 0
    requires Final(net, c, bond, useSession, w).Ok?
    ensures Final(net, c, bond, useSession, w).value.staking.Some?
    ensures Final(net, c, bond, useSession, w).value.balances.Some?
    ensures Solvent(Final(net, c, bond, useSession, w).value) <==>
            forall v :: v in Validators(net.nodes) ==>
              || Funded(net.nodes, v.accounts.stash)
              || Owns(AsMap(c.balances.value), v.accounts.stash, BondFound(c, bond).value)
              || exists i :: 0 <= i < net.nominators && w.nominatorAddress(i) == v.accounts.stash
  {
    SolventIffValidatorsOwn(net, c, bond, useSession, w);
    var b := BondFound(c, bond);
    AsMapDistinct(c.balances.value);
    forall v | v in Validators(net.nodes)
      ensures Owns(NodeBalances(net, c, bond), v.accounts.stash, b.value) <==>
              || Funded(net.nodes, v.accounts.stash)
              || Owns(AsMap(c.balances.value), v.accounts.stash, b.value)
    {
      GrantsRead(AsMap(c.balances.value), net.nodes, b, v.accounts.stash);
      FundedIffGranted(net.nodes, b, v.accounts.stash);
    }
  }

  lemma {:induction false} ValidatorsAreNodes(nodes: seq<Node>, v: Node)
    ensures v in Validators(nodes) <==> v in nodes && v.validator
    decreases |nodes|
  {
    if nodes != [] {
      ValidatorsAreNodes(nodes[..|nodes| - 1], v);
      assert nodes == nodes[..|nodes| - 1] + [nodes[|nodes| - 1]];
    }
  }

  /** In particular it is solvent when every validator node has a balance. */
  lemma FundedValidatorsAreSolvent(net: RelayChain, c: RuntimeConfig, bond: Option<int>, useSession: bool, w: World)
    requires c.staking.Some? && c.balances.Some? && !c.parachainInfo
    requires BondFound(c, bond).Some? && BondFound(c, bond).value > 0
    requires Final(net, c, bond, useSession, w).Ok?
    requires forall i :: 0 <= i < |net.nodes| && net.nodes[i].validator ==> net.nodes[i].balance != 0
    ensures Final(net, c, bond, useSession, w).value.staking.Some?
    ensures Final(net, c, bond, useSession, w).value.balances.Some?
    ensures Solvent(Final(net, c, bond, useSession, w).value)
  {
    SolventIffFunded(net, c, bond, useSession, w);
    forall v | v in Validators(net.nodes) ensures Funded(net.nodes, v.accounts.stash) {
      ValidatorsAreNodes(net.nodes, v);
      var i :| 0 <= i < |net.nodes| && net.nodes[i] == v;
    }
  }

  /** No account is listed twice exactly when the nominators are pairwise distinct and own nothing yet. */
  lemma NoAccountTwiceIff(net: RelayChain, c: RuntimeConfig, bond: Option<int>, useSession: bool, w: World)
    requires c.staking.Some? && c.balances.Some? && Final(net, c, bond, useSession, w).Ok?
    ensures Final(net, c, bond, useSession, w).value.balances.Some?
    ensures DistinctKeys(Final(net, c, bond, useSession, w).value.balances.value) <==>
            && (forall i, j :: 0 <= i < j < net.nominators ==> w.nominatorAddress(i) != w.nominatorAddress(j))
            && forall i :: 0 <= i < net.nominators ==> !Has(NodeBalances(net, c, bond), w.nominatorAddress(i))
  {
    FinalBalances(net, c, bond, useSession, w);
    if net.nominators > 0 {
      var b := BondFound(c, bond).value;
      DistinctAppend(NodeBalances(net, c, bond), NominatorBalances(net.nominators, b, w));
      assert forall i :: 0 <= i < net.nominators ==>
               NominatorBalances(net.nominators, b, w)[i].0 == w.nominatorAddress(i);
    }
  }

  /** A concrete failure: a nominator that owns a balance in the specification is listed twice. */
  lemma OwningNominatorIsListedTwice(w: World)
    ensures var nodes := [Node("a", Accounts("va", "sa", "ea", "ca"), 10, true, false)];
            var net := RelayChain(nodes, Unset, true, 1, 1);
            var staking := Staking([Staker("vb", "vb", 5, Validator)], [], 1);
            var c := RuntimeConfig(Some([]), false, None, None, None, false, Some(staking),
                                   Some([(w.nominatorAddress(0), 1)]));
            && Final(net, c, None, true, w).Ok?
            && Final(net, c, None, true, w).value.balances.Some?
            && !DistinctKeys(Final(net, c, None, true, w).value.balances.value)
  {
    var nodes := [Node("a", Accounts("va", "sa", "ea", "ca"), 10, true, false)];
    var net := RelayChain(nodes, Unset, true, 1, 1);
    var staking := Staking([Staker("vb", "vb", 5, Validator)], [], 1);
    var balances := [(w.nominatorAddress(0), 1)];
    var c := RuntimeConfig(Some([]), false, None, None, None, false, Some(staking), Some(balances));
    assert balances[..0] == [] && AsMap(balances) == balances;
    FinishesIff(net, c, None, true, w);
    GrantsRead(balances, nodes, BondFound(c, None), w.nominatorAddress(0));
    NoAccountTwiceIff(net, c, None, true, w);
  }

  lemma DistinctAppend(m: Balances, more: Balances)
    requires DistinctKeys(m)
    ensures DistinctKeys(m + more) <==>
            && (forall i, j :: 0 <= i < j < |more| ==> more[i].0 != more[j].0)
            && forall i :: 0 <= i < |more| ==> !Has(m, more[i].0)
  {
    var all := m + more;
    forall i | 0 <= i < |more|
      ensures Has(m, more[i].0) <==> exists k :: 0 <= k < |m| && m[k].0 == more[i].0
    {
      HasIff(m, more[i].0);
    }
    if DistinctKeys(all) {
      forall i, j | 0 <= i < j < |more| ensures more[i].0 != more[j].0 {
        assert all[|m| + i].0 != all[|m| + j].0;
      }
      forall i | 0 <= i < |more| ensures !Has(m, more[i].0) {
        forall k | 0 <= k < |m| ensures m[k].0 != more[i].0 {
          assert all[k].0 != all[|m| + i].0;
        }
      }
    }
  }

  lemma HasIff(m: Balances, a: string)
    requires DistinctKeys(m)
    ensures Has(m, a) <==> exists k :: 0 <= k < |m| && m[k].0 == a
  {
    if Has(m, a) {
      var k := GetFinds(m, a);
    }
    if exists k :: 0 <= k < |m| && m[k].0 == a {
      var k :| 0 <= k < |m| && m[k].0 == a;
      GetAt(m, k);
    }
  }

  // ---- nominations

  /**
   Every generated nominator backs between one and, unless that is none, `min(maxNominations, validators) - 1`
   validators of the genesis, never one twice when their stashes differ.
   */
  lemma NominationsAreWellFormed(
      net: RelayChain, c: RuntimeConfig, bond: Option<int>, useSession: bool, w: World, i: nat)
    requires c.staking.Some? && !c.parachainInfo && i < net.nominators
    requires Final(net, c, bond, useSession, w).Ok?
    requires Distinct(Stashes(Validators(net.nodes)))
    ensures var f, v := Final(net, c, bond, useSession, w).value, Validators(net.nodes);
            && f.staking.Some? && |f.staking.value.stakers| == |v| + net.nominators
            && var s := f.staking.value.stakers[|v| + i];
               && s.stash == s.controller == w.nominatorAddress(i)
               && s.role.Nominator?
               && Distinct(s.role.targets)
               && 1 <= |s.role.targets| <= |v|
               && (|s.role.targets| == 1 || |s.role.targets| < Min(net.maxNominations, |v|))
               && forall t :: t in s.role.targets ==> t in Stashes(v)
  {
    var f, b, v := Final(net, c, bond, useSession, w).value, BondFound(c, bond), Validators(net.nodes);
    FinalStakers(net, c, bond, useSession, w);
    var s := f.staking.value.stakers[|v| + i];
    assert s == NominatorStaker(i, Stashes(v), net.maxNominations, b.value, w);
    NominationIsSelection(Stashes(v), i, net.maxNominations, b.value, w);
  }

  lemma NominationIsSelection(validators: seq<string>, i: nat, maxNominations: nat, bond: int, w: World)
    requires validators != [] && maxNominations > 0 && Distinct(validators)
    ensures var s := NominatorStaker(i, validators, maxNominations, bond, w);
            && s.role.Nominator? && Distinct(s.role.targets)
            && 1 <= |s.role.targets| <= |validators|
            && (|s.role.targets| == 1 || |s.role.targets| < Min(maxNominations, |validators|))
            && forall t :: t in s.role.targets ==> t in validators
  {
    var n := NominationCount(i, |validators|, maxNominations, w);
    SampleIsSelection(validators, Draws(Answers(i, n, w), |validators|));
  }
}
