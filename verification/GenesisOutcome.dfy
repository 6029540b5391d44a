/**
 What a run of `customizePlainRelayChain` of orchestrator/src/chainSpec.ts writes for a file it is given, with
 amounts and conditions spelled out.
 */
module GenesisOutcome {
  import opened Wrappers
  import opened OrderedMap
  import opened Sampling
  import opened Genesis
  import opened GenesisLaws

  // ---- authorities

  /**
   A file with session keys, or with one of the pallets that stand for them, before the overrides: afterwards the
   session keys, if the overrides left that section, are one a validator node in order, and the authorities of
   aura and grandpa are empty.
   */
  lemma SessionKeysWritten(net: RelayChain, c0: RuntimeConfig, bond: Option<int>, w: World)
    requires c0.session.Some? || c0.otherSessionPallet
    requires Pipeline(net, c0, bond, w).Ok?
    ensures var f, c, v := Pipeline(net, c0, bond, w).value, Overridden(c0, net.override).value, Validators(net.nodes);
            && f.session == (if c.session.Some? then Some(Keys(v, net.useStash, w)) else None)
            && f.aura == (if c.aura.Some? then Some([]) else None)
            && f.grandpa == (if c.grandpa.Some? then Some([]) else None)
  {
    BeforeKeys(net, Overridden(c0, net.override).value, bond, true, w);
  }

  /**
   A file with none of them: afterwards aura and grandpa, each if the overrides left it, list one authority a
   validator node in order, and no session key is written.
   */
  lemma AuraAndGrandpaWritten(net: RelayChain, c0: RuntimeConfig, bond: Option<int>, w: World)
    requires c0.session.None? && !c0.otherSessionPallet
    requires Pipeline(net, c0, bond, w).Ok?
    ensures var f, c, v := Pipeline(net, c0, bond, w).value, Overridden(c0, net.override).value, Validators(net.nodes);
            && f.aura == (if c.aura.Some? then Some(AuraKeys(v)) else None)
            && f.grandpa == (if c.grandpa.Some? then Some(GrandpaKeys(v)) else None)
            && f.session == (if c.session.Some? then Some([]) else None)
  {
    BeforeKeys(net, Overridden(c0, net.override).value, bond, false, w);
  }

  /** Without overrides: the section the file has is the section that is written. */
  lemma KeysWithoutOverrides(net: RelayChain, c0: RuntimeConfig, bond: Option<int>, w: World)
    requires net.override == Unset && Pipeline(net, c0, bond, w).Ok?
    ensures var f, v := Pipeline(net, c0, bond, w).value, Validators(net.nodes);
            && (c0.session.Some? ==> f.session == Some(Keys(v, net.useStash, w)))
            && (c0.session.None? ==> f.session == None)
            && (c0.session.None? && !c0.otherSessionPallet && c0.aura.Some? ==> f.aura == Some(AuraKeys(v)))
  {
    if c0.session.Some? || c0.otherSessionPallet {
      SessionKeysWritten(net, c0, bond, w);
    } else {
      AuraAndGrandpaWritten(net, c0, bond, w);
    }
  }

  /**
   Overrides come first: one that goes through gives what the overridden file would have given, as long as that
   has the same kind of keys, and one that fails stops the run.
   */
  lemma OverridesComeFirst(net: RelayChain, c0: RuntimeConfig, bond: Option<int>, w: World)
    ensures net.override.Fails? ==> Pipeline(net, c0, bond, w) == Err(OverrideFailed)
    ensures net.override.Becomes? ==>
              var d := net.override.config;
              (c0.session.Some? || c0.otherSessionPallet) == (d.session.Some? || d.otherSessionPallet) ==>
                Pipeline(net, c0, bond, w) == Pipeline(net.(override := Unset), d, bond, w)
  {
  }

  /** The validators are the nodes marked so, in the order of the nodes. */
  lemma {:induction false} ValidatorsInOrder(a: seq<Node>, b: seq<Node>, node: Node)
    ensures Validators([node]) == if node.validator then [node] else []
    ensures Validators(a + b) == Validators(a) + Validators(b)
    decreases |b|
  {
    assert [node][..0] == [];
    if b == [] {
      assert a + b == a;
    } else {
      var n := |b| - 1;
      assert (a + b)[..|a + b| - 1] == a + b[..n];
      ValidatorsInOrder(a, b[..n], node);
    }
  }

  /** Collators chosen at genesis are gone, whatever the network. */
  lemma CollatorsAreCleared(net: RelayChain, c: RuntimeConfig, bond: Option<int>, useSession: bool, w: World)
    requires Final(net, c, bond, useSession, w).Ok?
    ensures var f := Final(net, c, bond, useSession, w).value;
            f.collatorSelection == (if c.collatorSelection.Some? then Some([]) else None)
  {
    ValidatorsClosed(WithBalances(Cleared(c), net.nodes, BondFound(c, bond)), net.nodes, BondFound(c, bond),
                     useSession, net.useStash, w);
  }

  // ---- bonds

  /** The bond a run works with: the first staker's of the file, else the one an earlier run left. */
  ghost function BondOf(c: RuntimeConfig, carried: Option<int>): Option<int>
    requires c.staking.Some?
  {
    if |c.staking.value.stakers| > 0 then Some(c.staking.value.stakers[0].bond) else carried
  }

  /**
   Every validator node stakes from its stash, with that bond, or with a million million where there is none or a
   zero; every nominator stakes from its account with exactly that bond.
   */
  lemma StakersAre(net: RelayChain, c: RuntimeConfig, bond: Option<int>, useSession: bool, w: World)
    requires c.staking.Some? && !c.parachainInfo && Final(net, c, bond, useSession, w).Ok?
    ensures var f, b, v := Final(net, c, bond, useSession, w).value, BondOf(c, bond), Validators(net.nodes);
            && f.staking.Some? && |f.staking.value.stakers| == |v| + net.nominators
            && (forall i :: 0 <= i < |v| ==>
                  f.staking.value.stakers[i] ==
                  Staker(v[i].accounts.stash, v[i].accounts.stash,
                         if b.Some? && b.value != 0 then b.value else 1000000000000, Validator))
            && forall i :: |v| <= i < |f.staking.value.stakers| ==>
                 && b.Some?
                 && f.staking.value.stakers[i].stash == w.nominatorAddress(i - |v|)
                 && f.staking.value.stakers[i].controller == w.nominatorAddress(i - |v|)
                 && f.staking.value.stakers[i].bond == b.value
  {
    FinalStakers(net, c, bond, useSession, w);
  }

  /** A parachain's staking is kept: the validators are added to its stakers, and the bond is the one carried. */
  lemma ParachainStakingIsKept(net: RelayChain, c: RuntimeConfig, bond: Option<int>, useSession: bool, w: World)
    requires c.staking.Some? && c.parachainInfo && net.nominators == 0
    ensures var f, v := Final(net, c, bond, useSession, w), Validators(net.nodes);
            && f.Ok? && f.value.staking.Some?
            && f.value.staking.value.stakers == c.staking.value.stakers + Stakers(v, bond)
            && f.value.staking.value.validatorCount == c.staking.value.validatorCount + |v|
  {
    ValidatorsClosed(WithBalances(Cleared(c), net.nodes, bond), net.nodes, bond, useSession, net.useStash, w);
  }

  /** How many validators a nominator backs: a random number below the maximum there can be, one instead of none. */
  lemma NominationsCounted(
      net: RelayChain, c: RuntimeConfig, bond: Option<int>, useSession: bool, w: World, i: nat)
    requires c.staking.Some? && !c.parachainInfo && i < net.nominators
    requires Final(net, c, bond, useSession, w).Ok?
    ensures var f, v := Final(net, c, bond, useSession, w).value, Validators(net.nodes);
            && f.staking.Some? && |f.staking.value.stakers| == |v| + net.nominators
            && v != [] && net.maxNominations > 0
            && f.staking.value.stakers[|v| + i].role.Nominator?
            && var most := if net.maxNominations < |v| then net.maxNominations else |v|;
               var targets := f.staking.value.stakers[|v| + i].role.targets;
               |targets| == if w.randomInt(i) % most == 0 then 1 else w.randomInt(i) % most
  {
    var f, b, v := Final(net, c, bond, useSession, w).value, BondFound(c, bond), Validators(net.nodes);
    FinalStakers(net, c, bond, useSession, w);
    var s := f.staking.value.stakers[|v| + i];
    assert s == NominatorStaker(i, Stashes(v), net.maxNominations, b.value, w);
  }

  /** The draws nominator `i` makes with its own random answers, the k-th among those not drawn before. */
  ghost function Chosen(i: nat, n: nat, len: nat, w: World): (choices: seq<nat>)
    requires n <= len
    ensures |choices| == n && Choices(choices, len)
    ensures forall k :: 0 <= k < n ==> choices[k] == Draw(w.random(i, k), len - k)
  {
    var choices := seq<nat>(n, k requires 0 <= k < n => Draw(w.random(i, k), len - k));
    assert forall k :: 0 <= k < n ==> choices[k] == Draw(w.random(i, k), len - k);
    choices
  }

  lemma ChosenByAnswers(i: nat, n: nat, len: nat, w: World)
    requires n <= len
    ensures Draws(Answers(i, n, w), len) == Chosen(i, n, len, w)
  {
    var random := Answers(i, n, w);
    forall k | 0 <= k < n ensures Draws(random, len)[k] == Chosen(i, n, len, w)[k] {
      DrawsAt(random, len, k);
    }
  }

  /** Which validators a nominator backs: as many as its number says, those its own random answers draw. */
  lemma NominationsDrawn(
      net: RelayChain, c: RuntimeConfig, bond: Option<int>, useSession: bool, w: World, i: nat)
    requires c.staking.Some? && !c.parachainInfo && i < net.nominators
    requires Final(net, c, bond, useSession, w).Ok?
    ensures var f, v := Final(net, c, bond, useSession, w).value, Validators(net.nodes);
            && f.staking.Some? && |f.staking.value.stakers| == |v| + net.nominators
            && v != [] && net.maxNominations > 0
            && var n := NominationCount(i, |v|, net.maxNominations, w);
               f.staking.value.stakers[|v| + i].role == Nominator(Sample(Stashes(v), Chosen(i, n, |v|, w)))
  {
    var v, b := Validators(net.nodes), BondFound(c, bond);
    FinalStakers(net, c, bond, useSession, w);
    ChosenByAnswers(i, NominationCount(i, |v|, net.maxNominations, w), |v|, w);
    assert Final(net, c, bond, useSession, w).value.staking.value.stakers[|v| + i] ==
           NominatorStaker(i, Stashes(v), net.maxNominations, b.value, w);
  }

  // ---- balances

  /** The list of balances as an object: the last entry of an account is the one it reads. */
  lemma {:induction false} LastEntryCounts(balances: Balances, i: nat)
    requires i < |balances| && forall j :: i < j < |balances| ==> balances[j].0 != balances[i].0
    ensures Get(AsMap(balances), balances[i].0) == Some(balances[i].1)
  {
    var n := |balances| - 1;
    GetAfterSet(AsMap(balances[..n]), balances[n].0, balances[n].1, balances[i].0);
    if i < n {
      assert balances[..n][i] == balances[i];
      LastEntryCounts(balances[..n], i);
    }
  }

  /**
   What a funded node owns: without a bond its balance; with one its balance too when it validates and that
   exceeds the bond, and twice the bond in every other case. The last node of a stash counts.
   */
  lemma NodeOwns(net: RelayChain, c: RuntimeConfig, bond: Option<int>, useSession: bool, w: World, i: nat)
    requires c.balances.Some? && c.staking.Some? && !c.parachainInfo && Final(net, c, bond, useSession, w).Ok?
    requires i < |net.nodes| && net.nodes[i].balance != 0
    requires forall j :: i < j < |net.nodes| && net.nodes[j].balance != 0 ==>
               net.nodes[j].accounts.stash != net.nodes[i].accounts.stash
    requires forall k :: 0 <= k < net.nominators ==> w.nominatorAddress(k) != net.nodes[i].accounts.stash
    ensures var f, b, node := Final(net, c, bond, useSession, w).value, BondOf(c, bond), net.nodes[i];
            && f.balances.Some?
            && Get(AsMap(f.balances.value), node.accounts.stash) ==
               Some(if b.None? || b.value == 0 then node.balance
                    else if node.validator && node.balance > b.value then node.balance
                    else b.value * 2)
  {
    var b, nb, a := BondFound(c, bond), NodeBalances(net, c, bond), net.nodes[i].accounts.stash;
    FinalBalances(net, c, bond, useSession, w);
    AsMapDistinct(c.balances.value);
    GrantsRead(AsMap(c.balances.value), net.nodes, b, a);
    LastGrantIs(net.nodes, b, i);
    AsMapOfDistinct(nb);
    if net.nominators > 0 {
      AsMapAppend(nb, NominatorBalances(net.nominators, b.value, w), a);
    }
  }

  lemma {:induction false} LastGrantIs(nodes: seq<Node>, bond: Option<int>, i: nat)
    requires i < |nodes| && nodes[i].balance != 0
    requires forall j :: i < j < |nodes| && nodes[j].balance != 0 ==> nodes[j].accounts.stash != nodes[i].accounts.stash
    ensures LastGrant(nodes, bond, nodes[i].accounts.stash) == Some(Granted(nodes[i], bond))
    decreases |nodes|
  {
    var n := |nodes| - 1;
    if i < n {
      assert nodes[..n][i] == nodes[i];
      LastGrantIs(nodes[..n], bond, i);
    }
  }

  /** The balances end with one entry a nominator, one unit more than the bond. */
  lemma NominatorsOwn(net: RelayChain, c: RuntimeConfig, bond: Option<int>, useSession: bool, w: World, i: nat)
    requires c.balances.Some? && c.staking.Some? && !c.parachainInfo && i < net.nominators
    requires Final(net, c, bond, useSession, w).Ok?
    ensures var f, b := Final(net, c, bond, useSession, w).value, BondOf(c, bond);
            && f.balances.Some? && |f.balances.value| >= net.nominators && b.Some?
            && f.balances.value[|f.balances.value| - net.nominators + i] == (w.nominatorAddress(i), b.value + 1)
  {
    FinalBalances(net, c, bond, useSession, w);
  }

  /** Which error stops a run that cannot make its nominators. */
  lemma WhichError(net: RelayChain, c: RuntimeConfig, bond: Option<int>, useSession: bool, w: World)
    requires c.staking.Some? && !c.parachainInfo && net.nominators > 0
    ensures Final(net, c, bond, useSession, w) == Err(TypeError) <==> BondOf(c, bond).None? || c.balances.None?
    ensures Final(net, c, bond, useSession, w) == Err(RangeError) <==>
            BondOf(c, bond).Some? && c.balances.Some? && (Validators(net.nodes) == [] || net.maxNominations == 0)
  {
    BeforeStaking(net, c, bond, useSession, w);
  }
}
