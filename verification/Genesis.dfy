/**
 The relay chain's genesis: `customizePlainRelayChain` of orchestrator/src/chainSpec.ts and its steps.
 Each step reads the specification file, edits it in place and writes it back; a module variable,
 `stakingBond`, carries the bond found while clearing to the later steps.
 */
module Genesis {
  import opened Wrappers
  import opened OrderedMap
  import opened Sampling

  datatype Accounts = Accounts(stash: string, sr: string, ed: string, ec: string)

  /** A missing balance counts as zero in the source. */
  datatype Node = Node(name: string, accounts: Accounts, balance: int, validator: bool, invulnerable: bool)

  /** An entry of `session.keys`; what the third part holds differs from chain to chain. */
  datatype Key = Key(account: string, controller: string, sessionKeys: map<string, string>)

  datatype Role = Validator | Nominator(targets: seq<string>) | Idle

  datatype Staker = Staker(stash: string, controller: string, bond: int, role: Role)

  datatype Staking = Staking(stakers: seq<Staker>, invulnerables: seq<string>, validatorCount: int)

  type Balances = Entries<string, int>

  /** The parts of the runtime configuration that the steps touch. */
  datatype RuntimeConfig = RuntimeConfig(
    session: Option<seq<Key>>, otherSessionPallet: bool,
    aura: Option<seq<string>>, grandpa: Option<seq<(string, int)>>,
    collatorSelection: Option<seq<string>>, parachainInfo: bool,
    staking: Option<Staking>, balances: Option<Balances>)

  /** What the genesis overrides of the network do to the configuration, see module `Overlay`. */
  datatype Override = Unset | Becomes(config: RuntimeConfig) | Fails

  datatype RelayChain = RelayChain(
    nodes: seq<Node>, override: Override, useStash: bool, nominators: nat, maxNominations: nat)

  /** What the steps ask the outside world: derived addresses and random answers. */
  datatype World = World(
    nodeKey: (Node, bool) -> Key,
    nominatorAddress: nat -> string,
    randomInt: nat -> nat,
    random: (nat, nat) -> Unit)

  datatype GenesisError = OverrideFailed | TypeError | RangeError

  const DEFAULT_BOND := 1000000000000

  // ---- what each step does to the configuration

  predicate HasSessionKeys(c: RuntimeConfig) { c.session.Some? || c.otherSessionPallet }

  function Emptied<T>(o: Option<seq<T>>): Option<seq<T>> { if o.Some? then Some([]) else None }

  function Cleared(c: RuntimeConfig): RuntimeConfig {
    c.(session := Emptied(c.session), aura := Emptied(c.aura), grandpa := Emptied(c.grandpa),
       collatorSelection := Emptied(c.collatorSelection),
       staking := if c.staking.Some? && !c.parachainInfo then Some(Staking([], [], 0)) else c.staking)
  }

  /** The bond is taken from the first staker found while clearing; without one it stays what it was. */
  function BondFound(c: RuntimeConfig, bond: Option<int>): Option<int> {
    if c.staking.Some? && !c.parachainInfo && c.staking.value.stakers != []
    then Some(c.staking.value.stakers[0].bond) else bond
  }

  /** A bond of zero counts as none in the source. */
  predicate Positive(bond: Option<int>) { bond.Some? && bond.value != 0 }

  /** The list of balances as an object: a later entry of an account overrides. */
  function AsMap(balances: Balances): Balances {
    if balances == [] then []
    else
      var n := |balances| - 1;
      Set(AsMap(balances[..n]), balances[n].0, balances[n].1)
  }

  function Granted(node: Node, bond: Option<int>): int {
    if Positive(bond) then
      if node.validator && node.balance > bond.value then node.balance else bond.value * 2
    else node.balance
  }

  function Grant(balances: Balances, node: Node, bond: Option<int>): Balances {
    if node.balance == 0 then balances else Set(balances, node.accounts.stash, Granted(node, bond))
  }

  function GrantAll(balances: Balances, nodes: seq<Node>, bond: Option<int>): Balances {
    if nodes == [] then balances
    else Grant(GrantAll(balances, nodes[..|nodes| - 1], bond), nodes[|nodes| - 1], bond)
  }

  function WithBalances(c: RuntimeConfig, nodes: seq<Node>, bond: Option<int>): RuntimeConfig {
    if c.balances.None? then c else c.(balances := Some(GrantAll(AsMap(c.balances.value), nodes, bond)))
  }

  function Push<T>(o: Option<seq<T>>, x: T): Option<seq<T>> { if o.Some? then Some(o.value + [x]) else None }

  function ValidatorBond(bond: Option<int>): int { if Positive(bond) then bond.value else DEFAULT_BOND }

  function ValidatorStaker(node: Node, bond: Option<int>): Staker {
    Staker(node.accounts.stash, node.accounts.stash, ValidatorBond(bond), Validator)
  }

  function WithStaking(c: RuntimeConfig, node: Node, bond: Option<int>): RuntimeConfig {
    if c.staking.None? then c
    else
      var s := c.staking.value;
      c.(staking := Some(Staking(
        s.stakers + [ValidatorStaker(node, bond)],
        if node.invulnerable then s.invulnerables + [node.accounts.stash] else s.invulnerables,
        s.validatorCount + 1)))
  }

  /** The keys of one node, in `session` or in `aura` and `grandpa`. */
  function WithKeys(c: RuntimeConfig, node: Node, useSession: bool, key: Key): RuntimeConfig {
    if useSession then c.(session := Push(c.session, key))
    else c.(aura := Push(c.aura, node.accounts.sr), grandpa := Push(c.grandpa, (node.accounts.ed, 1)))
  }

  function WithValidators(
      c: RuntimeConfig, nodes: seq<Node>, bond: Option<int>, useSession: bool, useStash: bool, w: World): RuntimeConfig
  {
    if nodes == [] then c
    else
      var n := |nodes| - 1;
      var before := WithValidators(c, nodes[..n], bond, useSession, useStash, w);
      if nodes[n].validator
      then WithStaking(WithKeys(before, nodes[n], useSession, w.nodeKey(nodes[n], useStash)), nodes[n], bond)
      else before
  }

  function Validators(nodes: seq<Node>): seq<Node> {
    if nodes == [] then []
    else
      var n := |nodes| - 1;
      if nodes[n].validator then Validators(nodes[..n]) + [nodes[n]] else Validators(nodes[..n])
  }

  function Stashes(nodes: seq<Node>): (stashes: seq<string>)
    ensures |stashes| == |nodes| && forall i :: 0 <= i < |nodes| ==> stashes[i] == nodes[i].accounts.stash
  {
    seq(|nodes|, i requires 0 <= i < |nodes| => nodes[i].accounts.stash)
  }

  /** How many validators nominator `i` picks. */
  function NominationCount(i: nat, validators: nat, maxNominations: nat, w: World): (count: nat)
    requires validators > 0 && maxNominations > 0
    ensures 1 <= count <= validators
    ensures count == 1 || count < Min(maxNominations, validators)
  {
    var count := w.randomInt(i) % Min(maxNominations, validators);
    if count == 0 then 1 else count
  }

  function Answers(i: nat, n: nat, w: World): (random: seq<Unit>)
    ensures |random| == n
  {
    seq<Unit>(n, k requires 0 <= k < n => w.random(i, k))
  }

  ghost function NominatorStaker(i: nat, validators: seq<string>, maxNominations: nat, bond: int, w: World): Staker
    requires validators != [] && maxNominations > 0
  {
    var n := NominationCount(i, |validators|, maxNominations, w);
    var a := w.nominatorAddress(i);
    Staker(a, a, bond, Nominator(Sample(validators, Draws(Answers(i, n, w), |validators|))))
  }

  ghost function NominatorStakers(n: nat, validators: seq<string>, maxNominations: nat, bond: int, w: World)
      : (s: seq<Staker>)
    requires validators != [] && maxNominations > 0
    ensures |s| == n && forall i :: 0 <= i < n ==> s[i] == NominatorStaker(i, validators, maxNominations, bond, w)
  {
    seq(n, i requires 0 <= i < n => NominatorStaker(i, validators, maxNominations, bond, w))
  }

  function NominatorBalances(n: nat, bond: int, w: World): (b: Balances)
    ensures |b| == n && forall i :: 0 <= i < n ==> b[i] == (w.nominatorAddress(i), bond + 1)
  {
    seq(n, i requires 0 <= i < n => (w.nominatorAddress(i), bond + 1))
  }

  /** `generateNominators`, or the error it stops with. */
  ghost function WithNominators(
      c: RuntimeConfig, n: nat, maxNominations: nat, validators: seq<string>, bond: Option<int>, w: World)
      : Result<RuntimeConfig, GenesisError>
  {
    if c.staking.None? || n == 0 then Ok(c)
    else if bond.None? || c.balances.None? then Err(TypeError)
    else if validators == [] || maxNominations == 0 then Err(RangeError)
    else
      var s := c.staking.value;
      var all := s.stakers + NominatorStakers(n, validators, maxNominations, bond.value, w);
      Ok(c.(staking := Some(s.(stakers := all)),
            balances := Some(c.balances.value + NominatorBalances(n, bond.value, w))))
  }

  /** The configuration the overrides leave, if they go through. */
  function Overridden(c: RuntimeConfig, o: Override): Option<RuntimeConfig> {
    match o case Unset => Some(c) case Becomes(d) => Some(d) case Fails => None
  }

  /** The configuration before nominators are added. */
  ghost function BeforeNominators(net: RelayChain, c: RuntimeConfig, bond: Option<int>, useSession: bool, w: World)
      : RuntimeConfig
  {
    var b := BondFound(c, bond);
    WithValidators(WithBalances(Cleared(c), net.nodes, b), net.nodes, b, useSession, net.useStash, w)
  }

  /** The file after a run without errors, from the configuration the overrides left. */
  ghost function Final(net: RelayChain, c: RuntimeConfig, bond: Option<int>, useSession: bool, w: World)
      : Result<RuntimeConfig, GenesisError>
  {
    WithNominators(BeforeNominators(net, c, bond, useSession, w), net.nominators, net.maxNominations,
                   Stashes(Validators(net.nodes)), BondFound(c, bond), w)
  }

  /** The whole run from the file it is given: the kind of keys is told before the overrides. */
  ghost function Pipeline(net: RelayChain, c0: RuntimeConfig, bond: Option<int>, w: World)
      : Result<RuntimeConfig, GenesisError>
  {
    var c := Overridden(c0, net.override);
    if c.None? then Err(OverrideFailed) else Final(net, c.value, bond, HasSessionKeys(c0), w)
  }

  // ---- the source

  class ChainSpec {
    /** The runtime configuration in the file. */
    var config: RuntimeConfig
    /** The module variable. */
    var stakingBond: Option<int>

    constructor (c: RuntimeConfig, bond: Option<int>)
      ensures config == c && stakingBond == bond
    {
      config, stakingBond := c, bond;
    }

    method ClearAuthorities()
      modifies this
      ensures config == Cleared(old(config)) && stakingBond == BondFound(old(config), old(stakingBond))
    {
      var c := config;
      if c.session.Some? { c := c.(session := Some([])); }
      if c.aura.Some? { c := c.(aura := Some([])); }
      if c.grandpa.Some? { c := c.(grandpa := Some([])); }
      if c.collatorSelection.Some? { c := c.(collatorSelection := Some([])); }
      if c.staking.Some? && !c.parachainInfo {
        if |c.staking.value.stakers| > 0 {
          stakingBond := Some(c.staking.value.stakers[0].bond);
        }
        c := c.(staking := Some(Staking([], [], 0)));
      }
      config := c;
    }

    method AddBalances(nodes: seq<Node>)
      modifies `config
      ensures config == WithBalances(old(config), nodes, stakingBond)
    {
      if config.balances.None? {
        return;
      }
      var balances := config.balances.value;
      var balanceMap: Balances := [];
      for i := 0 to |balances|
        invariant balanceMap == AsMap(balances[..i])
      {
        assert balances[..i + 1][..i] == balances[..i];
        balanceMap := Set(balanceMap, balances[i].0, balances[i].1);
      }
      assert balances[..|balances|] == balances;
      for i := 0 to |nodes|
        invariant balanceMap == GrantAll(AsMap(balances), nodes[..i], stakingBond)
      {
        assert nodes[..i + 1][..i] == nodes[..i];
        var node := nodes[i];
        if node.balance != 0 {
          var balanceToAdd :=
            if Positive(stakingBond) then
              if node.validator && node.balance > stakingBond.value then node.balance else stakingBond.value * 2
            else node.balance;
          balanceMap := Set(balanceMap, node.accounts.stash, balanceToAdd);
        }
      }
      assert nodes[..|nodes|] == nodes;
      config := config.(balances := Some(balanceMap));
    }

    method AddAuthority(node: Node, key: Key)
      modifies `config
      ensures config == WithKeys(old(config), node, true, key)
    {
      if config.session.Some? {
        config := config.(session := Some(config.session.value + [key]));
      }
    }

    method AddAuraAuthority(node: Node)
      modifies `config
      ensures config == old(config).(aura := Push(old(config).aura, node.accounts.sr))
    {
      if config.aura.Some? {
        config := config.(aura := Some(config.aura.value + [node.accounts.sr]));
      }
    }

    method AddGrandpaAuthority(node: Node)
      modifies `config
      ensures config == old(config).(grandpa := Push(old(config).grandpa, (node.accounts.ed, 1)))
    {
      if config.grandpa.Some? {
        config := config.(grandpa := Some(config.grandpa.value + [(node.accounts.ed, 1)]));
      }
    }

    method AddStaking(node: Node)
      modifies `config
      ensures config == WithStaking(old(config), node, stakingBond)
    {
      if config.staking.None? {
        return;
      }
      var s := config.staking.value;
      var bond := if Positive(stakingBond) then stakingBond.value else DEFAULT_BOND;
      s := s.(stakers := s.stakers + [Staker(node.accounts.stash, node.accounts.stash, bond, Validator)]);
      s := s.(validatorCount := s.validatorCount + 1);
      if node.invulnerable {
        s := s.(invulnerables := s.invulnerables + [node.accounts.stash]);
      }
      config := config.(staking := Some(s));
    }

    /** One nominator with its random validators. */
    static method MakeNominator(i: nat, address: string, actualMax: nat, validators: seq<string>, bond: int, w: World)
        returns (staker: Staker)
      requires 0 < actualMax <= |validators| && address == w.nominatorAddress(i)
      ensures forall max :: max > 0 && actualMax == Min(max, |validators|) ==>
                staker == NominatorStaker(i, validators, max, bond, w)
    {
      var count := w.randomInt(i) % actualMax;
      var picks := if count == 0 then count + 1 else count;
      var nominations := GetRandom(validators, picks, Answers(i, picks, w));
      assert Names(nominations[..]) == Sample(validators, Draws(Answers(i, picks, w), |validators|));
      return Staker(address, address, bond, Nominator(Names(nominations[..])));
    }

    /** The file is written only when every nominator was made. */
    method GenerateNominators(n: nat, maxNominations: nat, validators: seq<string>, w: World)
        returns (r: Result<(), GenesisError>)
      modifies `config
      ensures var after := WithNominators(old(config), n, maxNominations, validators, stakingBond, w);
              if after.Ok? then r == Ok(()) && config == after.value
              else r == Err(after.error) && config == old(config)
    {
      if config.staking.None? {
        return Ok(());
      }
      var c := config;
      var actualMax := if maxNominations < |validators| then maxNominations else |validators|;
      for i := 0 to n
        invariant config == old(config)
        invariant WithNominators(config, i, maxNominations, validators, stakingBond, w) == Ok(c)
      {
        if stakingBond.None? || c.balances.None? {
          return Err(TypeError);
        }
        var address := w.nominatorAddress(i);
        var balances := c.balances.value + [(address, stakingBond.value + 1)];
        if actualMax == 0 {
          return Err(RangeError);
        }
        var staker := MakeNominator(i, address, actualMax, validators, stakingBond.value, w);
        NextNominator(config, i, maxNominations, validators, stakingBond.value, w, c);
        var stakers := c.staking.value.stakers + [staker];
        c := c.(staking := Some(c.staking.value.(stakers := stakers)), balances := Some(balances));
      }
      config := c;
      return Ok(());
    }

    /** The whole pipeline; an error ends it and leaves the file as the last finished step wrote it. */
    method CustomizePlainRelayChain(net: RelayChain, w: World) returns (r: Result<(), GenesisError>)
      modifies this
      ensures var p := Pipeline(net, old(config), old(stakingBond), w);
              if p.Ok? then r == Ok(()) && config == p.value else r == Err(p.error)
      ensures var c := Overridden(old(config), net.override);
              if c.None? then r == Err(OverrideFailed) && config == old(config) && stakingBond == old(stakingBond)
              else
                var b := BondFound(c.value, old(stakingBond));
                var before := BeforeNominators(net, c.value, old(stakingBond), HasSessionKeys(old(config)), w);
                var after := WithNominators(before, net.nominators, net.maxNominations,
                                            Stashes(Validators(net.nodes)), b, w);
                && stakingBond == b
                && if after.Ok? then r == Ok(()) && config == after.value
                   else r == Err(after.error) && config == before
    {
      var useSession := HasSessionKeys(config);
      match net.override {
        case Unset =>
        case Becomes(d) => config := d;
        case Fails => return Err(OverrideFailed);
      }
      ClearAuthorities();
      AddBalances(net.nodes);
      var validatorKeys: seq<string> := [];
      ghost var c0 := config;
      for i := 0 to |net.nodes|
        invariant config == WithValidators(c0, net.nodes[..i], stakingBond, useSession, net.useStash, w)
        invariant validatorKeys == Stashes(Validators(net.nodes[..i]))
        invariant stakingBond == BondFound(Overridden(old(config), net.override).value, old(stakingBond))
      {
        var node := net.nodes[i];
        assert net.nodes[..i + 1][..i] == net.nodes[..i];
        if node.validator {
          validatorKeys := validatorKeys + [node.accounts.stash];
          if useSession {
            AddAuthority(node, w.nodeKey(node, net.useStash));
          } else {
            AddAuraAuthority(node);
            AddGrandpaAuthority(node);
          }
          AddStaking(node);
        }
      }
      assert net.nodes[..|net.nodes|] == net.nodes;
      if net.nominators > 0 {
        r := GenerateNominators(net.nominators, net.maxNominations, validatorKeys, w);
      } else {
        r := Ok(());
      }
    }
  }

  /** A sample that leaves nothing undefined. */
  function Names(sample: seq<Option<string>>): (names: seq<string>)
    requires forall i :: 0 <= i < |sample| ==> sample[i].Some?
    ensures |names| == |sample| && forall i :: 0 <= i < |names| ==> Some(names[i]) == sample[i]
  {
    seq(|sample|, i requires 0 <= i < |sample| => sample[i].value)
  }

  lemma NextNominator(
      c0: RuntimeConfig, i: nat, maxNominations: nat, validators: seq<string>, bond: int, w: World, c: RuntimeConfig)
    requires validators != [] && maxNominations > 0 && c0.balances.Some? && c0.staking.Some?
    requires WithNominators(c0, i, maxNominations, validators, Some(bond), w) == Ok(c)
    ensures c.staking.Some? && c.balances.Some?
    ensures WithNominators(c0, i + 1, maxNominations, validators, Some(bond), w) ==
            Ok(c.(staking := Some(c.staking.value.(stakers :=
                    c.staking.value.stakers + [NominatorStaker(i, validators, maxNominations, bond, w)])),
                  balances := Some(c.balances.value + [(w.nominatorAddress(i), bond + 1)])))
  {
    var s, b := c0.staking.value.stakers, c0.balances.value;
    var more, money := NominatorStakers(i, validators, maxNominations, bond, w), NominatorBalances(i, bond, w);
    var last, coin := NominatorStaker(i, validators, maxNominations, bond, w), (w.nominatorAddress(i), bond + 1);
    assert NominatorStakers(i + 1, validators, maxNominations, bond, w) == more + [last];
    assert NominatorBalances(i + 1, bond, w) == money + [coin];
    assert s + (more + [last]) == s + more + [last] && b + (money + [coin]) == b + money + [coin];
    if i == 0 {
      assert s + more == s && b + money == b;
    }
  }
}
