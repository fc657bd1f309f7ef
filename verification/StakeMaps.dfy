/** Stake maps: their sorted order, total, proposer lottery and replay over a chain
    (the arithmetic of consensus/pos.py). */
module StakeMaps {
  import opened Types
  import opened Text
  import opened HashUtils

  // ---------- sorted(stake_map.items()) ----------

  ghost predicate Ascending(keys: seq<string>) {
    forall i, j :: 0 <= i < j < |keys| ==> Lt(keys[i], keys[j])
  }

  ghost predicate IsLeast(k: string, s: set<string>) {
    k in s && forall x :: x in s ==> x == k || Lt(k, x)
  }

  lemma {:induction false} LeastExists(s: set<string>)
    requires s != {}
    ensures exists k :: IsLeast(k, s)
    decreases s
  {
    var k :| k in s;
    if s == {k} {
      assert IsLeast(k, s);
    } else {
      LeastExists(s - {k});
      var m :| IsLeast(m, s - {k});
      LtTotal(k, m);
      var least := if Lt(k, m) then k else m;
      forall x | x in s ensures x == least || Lt(least, x) {
        if x != k && Lt(k, m) && x != m {
          LtTransitive(k, m, x);
        }
      }
      assert IsLeast(least, s);
    }
  }

  ghost function Least(s: set<string>): (k: string)
    requires s != {}
    ensures IsLeast(k, s)
  {
    LeastExists(s);
    var k :| IsLeast(k, s);
    k
  }

  /** The keys in ascending order. */
  ghost function SortedKeys(s: set<string>): (keys: seq<string>)
    ensures forall k :: k in keys <==> k in s
    ensures Ascending(keys) && |keys| == |s|
    decreases s
  {
    if s == {} then [] else [Least(s)] + SortedKeys(s - {Least(s)})
  }

  /** An ascending list is determined by its elements. */
  lemma {:induction false} AscendingUnique(a: seq<string>, b: seq<string>)
    requires Ascending(a) && Ascending(b) && |a| == |b|
    requires forall k :: k in a <==> k in b
    ensures a == b
    decreases |a|
  {
    if a != [] {
      assert a[0] in b;
      assert b[0] in a;
      if a[0] != b[0] {
        LtAsymmetric(a[0], b[0]);
        assert false;
      }
      LtIrreflexive(a[0]);
      assert a == [a[0]] + a[1..] && b == [b[0]] + b[1..];
      forall k ensures k in a[1..] <==> k in b[1..] {
        if k in a[1..] { assert k in a; }
        if k in b[1..] { assert k in b; }
      }
      AscendingUnique(a[1..], b[1..]);
    }
  }

  /** `sorted(m.items())`, whatever the insertion order of the dict. */
  method Sorted(s: set<string>) returns (keys: seq<string>)
    ensures keys == SortedKeys(s)
  {
    keys := [];
    var rest := s;
    while rest != {}
      invariant rest <= s && |keys| + |rest| == |s|
      invariant Ascending(keys)
      invariant forall k :: k in keys <==> k in s - rest
      decreases rest
    {
      var k :| k in rest;
      var i := 0;
      while i < |keys| && Lt(keys[i], k)
        invariant 0 <= i <= |keys|
        invariant forall j :: 0 <= j < i ==> Lt(keys[j], k)
      {
        i := i + 1;
      }
      InsertAscending(keys, i, k);
      keys := keys[..i] + [k] + keys[i..];
      rest := rest - {k};
    }
    AscendingUnique(keys, SortedKeys(s));
  }

  lemma InsertAscending(keys: seq<string>, i: nat, k: string)
    requires Ascending(keys) && i <= |keys| && k !in keys
    requires forall j :: 0 <= j < i ==> Lt(keys[j], k)
    requires i < |keys| ==> !Lt(keys[i], k)
    ensures Ascending(keys[..i] + [k] + keys[i..])
    ensures forall x :: x in keys[..i] + [k] + keys[i..] <==> x in keys || x == k
  {
    var out := keys[..i] + [k] + keys[i..];
    forall a, b | 0 <= a < b < |out| ensures Lt(out[a], out[b]) {
      if a < i && b == i {
        assert Lt(keys[a], k);
      } else if a == i {
        AboveInsertion(keys, i, k, b - 1);
      } else if a < i {
        assert Lt(keys[a], keys[if b < i then b else b - 1]);
      } else {
        assert Lt(keys[a - 1], keys[b - 1]);
      }
    }
    InsertMembers(keys, i, k);
  }

  lemma InsertMembers(keys: seq<string>, i: nat, k: string)
    requires i <= |keys|
    ensures forall x :: x in keys[..i] + [k] + keys[i..] <==> x in keys || x == k
  {
    assert keys == keys[..i] + keys[i..];
  }

  lemma AboveInsertion(keys: seq<string>, i: nat, k: string, j: nat)
    requires Ascending(keys) && i <= j < |keys| && k !in keys && !Lt(keys[i], k)
    ensures Lt(k, keys[j])
  {
    LtTotal(k, keys[i]);
    if j > i { LtTransitive(k, keys[i], keys[j]); }
  }

  // ---------- totals ----------

  function StakeOf(m: Stakes, k: string): nat {
    if k in m then m[k] else 0
  }

  function SumOver(keys: seq<string>, m: Stakes): nat {
    if keys == [] then 0 else StakeOf(m, keys[0]) + SumOver(keys[1..], m)
  }

  /** `sum(m.values())` restricted to the keys in `s`. */
  ghost function SetTotal(s: set<string>, m: Stakes): nat {
    SumOver(SortedKeys(s), m)
  }

  ghost function Total(m: Stakes): nat {
    SetTotal(m.Keys, m)
  }

  lemma SetTotalUnfold(s: set<string>, m: Stakes)
    requires s != {}
    ensures SetTotal(s, m) == StakeOf(m, Least(s)) + SetTotal(s - {Least(s)}, m)
  {
    var keys := SortedKeys(s);
    assert keys[0] == Least(s) && keys[1..] == SortedKeys(s - {Least(s)});
  }

  lemma {:induction false} SetTotalRemove(s: set<string>, m: Stakes, k: string)
    requires k in s
    ensures SetTotal(s, m) == StakeOf(m, k) + SetTotal(s - {k}, m)
    decreases |s|
  {
    SetTotalUnfold(s, m);
    if k != Least(s) {
      SetTotalRemove(s - {Least(s)}, m, k);
      TotalsCommute(s, m, k);
    }
  }

  lemma TotalsCommute(s: set<string>, m: Stakes, k: string)
    requires k in s && k != Least(s)
    ensures SetTotal(s - {k}, m) == StakeOf(m, Least(s)) + SetTotal(s - {Least(s)} - {k}, m)
  {
    LeastUnique(s - {k}, Least(s));
    SetTotalUnfold(s - {k}, m);
    assert s - {k} - {Least(s)} == s - {Least(s)} - {k};
  }

  lemma LeastUnique(s: set<string>, k: string)
    requires IsLeast(k, s)
    ensures k == Least(s)
  {
    if k != Least(s) {
      LtAsymmetric(k, Least(s));
    }
  }

  /** `get_total_stake`: the sum does not depend on the order the dict is walked. */
  method GetTotalStake(m: Stakes) returns (total: nat)
    ensures total == Total(m)
  {
    total := 0;
    var rest := m.Keys;
    while rest != {}
      invariant rest <= m.Keys
      invariant total + SetTotal(rest, m) == Total(m)
      decreases rest
    {
      var k :| k in rest;
      SetTotalRemove(rest, m, k);
      total := total + m[k];
      rest := rest - {k};
    }
  }

  // ---------- the proposer lottery ----------

  /** The validator whose share of the cumulated stakes contains `pick`. */
  function Walk(keys: seq<string>, m: Stakes, pick: int): Option<string> {
    if keys == [] then None
    else if pick < StakeOf(m, keys[0]) then Some(keys[0])
    else Walk(keys[1..], m, pick - StakeOf(m, keys[0]))
  }

  /** Where the share of `v` begins. */
  function ShareStart(keys: seq<string>, m: Stakes, v: string): nat
    requires v in keys
  {
    if keys[0] == v then 0 else StakeOf(m, keys[0]) + ShareStart(keys[1..], m, v)
  }

  /** `v` wins exactly on an interval as long as its stake, inside [0, sum). */
  lemma {:induction false} WalkInterval(keys: seq<string>, m: Stakes, v: string, pick: nat)
    requires Ascending(keys) && v in keys
    ensures Walk(keys, m, pick) == Some(v) <==>
      ShareStart(keys, m, v) <= pick < ShareStart(keys, m, v) + StakeOf(m, v)
    ensures ShareStart(keys, m, v) + StakeOf(m, v) <= SumOver(keys, m)
    decreases keys
  {
    LtIrreflexive(keys[0]);
    if keys[0] == v {
      assert v !in keys[1..];
      if pick >= StakeOf(m, v) {
        WalkWithin(keys[1..], m, pick - StakeOf(m, v));
      }
    } else if pick >= StakeOf(m, keys[0]) {
      WalkInterval(keys[1..], m, v, pick - StakeOf(m, keys[0]));
    } else {
      WalkInterval(keys[1..], m, v, 0);
    }
  }

  /** The walk ends on one of the keys, and it ends exactly when `pick` is below the sum. */
  lemma {:induction false} WalkWithin(keys: seq<string>, m: Stakes, pick: nat)
    ensures Walk(keys, m, pick).Some? <==> pick < SumOver(keys, m)
    ensures Walk(keys, m, pick).Some? ==> Walk(keys, m, pick).value in keys
    decreases keys
  {
    if keys != [] && pick >= StakeOf(m, keys[0]) {
      WalkWithin(keys[1..], m, pick - StakeOf(m, keys[0]));
    }
  }

  /** The integers lo .. lo+n-1. */
  ghost function Interval(lo: int, n: nat): (s: set<int>)
    ensures |s| == n
    ensures forall p :: p in s <==> lo <= p < lo + n
  {
    if n == 0 then {} else Interval(lo, n - 1) + {lo + (n - 1)}
  }

  /** The loop of `select_proposer` for a given pick, fallback included. */
  ghost function ProposerAt(m: Stakes, pick: int): string
    requires m != map[]
  {
    var keys := SortedKeys(m.Keys);
    GetOr(Walk(keys, m, pick), keys[|keys| - 1])
  }

  /** The draw is exactly proportional: of the picks in [0, total), a validator
      wins exactly as many as its stake. */
  lemma SelectionProportional(m: Stakes, v: string)
    requires v in m
    ensures |set pick: int | 0 <= pick < Total(m) && ProposerAt(m, pick) == v| == m[v]
  {
    var wins := set pick: int | 0 <= pick < Total(m) && ProposerAt(m, pick) == v;
    var lo := ShareStart(SortedKeys(m.Keys), m, v);
    forall pick: int ensures pick in wins <==> pick in Interval(lo, m[v]) {
      ShareIsInterval(m, v, pick);
    }
    assert wins == Interval(lo, m[v]);
  }

  lemma ShareIsInterval(m: Stakes, v: string, pick: int)
    requires v in m
    ensures var lo := ShareStart(SortedKeys(m.Keys), m, v);
      0 <= pick < Total(m) && ProposerAt(m, pick) == v <==> lo <= pick < lo + m[v]
  {
    var keys := SortedKeys(m.Keys);
    WalkInterval(keys, m, v, 0);
    if 0 <= pick {
      WalkInterval(keys, m, v, pick);
      WalkWithin(keys, m, pick);
    }
  }

  /** For every pick that can be drawn the loop itself returns, so the final
      fallback is dead code, and the winner holds a positive stake. */
  lemma FallbackUnreachable(m: Stakes, pick: nat)
    requires m != map[] && pick < Total(m)
    ensures Walk(SortedKeys(m.Keys), m, pick) == Some(ProposerAt(m, pick))
    ensures ProposerAt(m, pick) in m && m[ProposerAt(m, pick)] > 0
  {
    var keys := SortedKeys(m.Keys);
    WalkWithin(keys, m, pick);
    WalkInterval(keys, m, ProposerAt(m, pick), pick);
  }

  /** `int(sha256("slot-N"), 16)`. */
  function SlotSeed(env: Crypto, slot: int): nat {
    HexValue(env.sha("slot-" + Str(slot)))
  }

  /** `select_proposer`: a total stake of zero divides by zero. */
  ghost function Proposer(env: Crypto, slot: int, m: Stakes): Result<string> {
    if m == map[] then Failure("No validators registered")
    else if Total(m) == 0 then Failure("ZeroDivisionError")
    else Success(ProposerAt(m, SlotSeed(env, slot) % Total(m)))
  }

  lemma WalkStep(keys: seq<string>, m: Stakes, pick: int)
    requires keys != []
    ensures Walk(keys, m, pick) == if pick < StakeOf(m, keys[0]) then Some(keys[0])
                                   else Walk(keys[1..], m, pick - StakeOf(m, keys[0]))
  {
  }

  lemma ModBelow(a: nat, b: nat)
    requires b > 0
    ensures 0 <= a % b < b
  {
  }

  /** A chosen proposer is a validator with a positive stake. */
  lemma ProposerHasStake(env: Crypto, slot: int, m: Stakes)
    requires Proposer(env, slot, m).Success?
    ensures Proposer(env, slot, m).value in m && m[Proposer(env, slot, m).value] > 0
  {
    ModBelow(SlotSeed(env, slot), Total(m));
    FallbackUnreachable(m, SlotSeed(env, slot) % Total(m));
  }

  /** The cumulative loop. */
  method DrawFrom(keys: seq<string>, m: Stakes, pick: nat) returns (winner: string)
    requires keys != [] && forall k :: k in keys ==> k in m
    ensures winner == GetOr(Walk(keys, m, pick), keys[|keys| - 1])
  {
    var cumulative, i := 0, 0;
    assert keys[0..] == keys;
    while i < |keys|
      invariant 0 <= i <= |keys|
      invariant cumulative <= pick
      invariant Walk(keys, m, pick) == Walk(keys[i..], m, pick - cumulative)
    {
      WalkStep(keys[i..], m, pick - cumulative);
      assert keys[i..][1..] == keys[i + 1..];
      cumulative := cumulative + m[keys[i]];
      if pick < cumulative {
        return keys[i];
      }
      i := i + 1;
    }
    assert keys[i..] == [];
    winner := keys[|keys| - 1];
  }

  /** Sorting, then drawing. */
  method Draw(m: Stakes, pick: nat) returns (winner: string)
    requires m != map[]
    ensures winner == ProposerAt(m, pick)
  {
    var keys := Sorted(m.Keys);
    winner := DrawFrom(keys, m, pick);
  }

  method SelectProposer(env: Crypto, slot: int, m: Stakes) returns (r: Result<string>)
    ensures r == Proposer(env, slot, m)
  {
    if m == map[] {
      return Failure("No validators registered");
    }
    var total := GetTotalStake(m);
    if total == 0 {
      return Failure("ZeroDivisionError");
    }
    var winner := Draw(m, SlotSeed(env, slot) % total);
    r := Success(winner);
  }

  // ---------- rewards and replay ----------

  /** The proposer a block names, if the reward rule takes notice of it. */
  predicate Credits(b: Block, v: string) {
    v != "" && b.header.validatorId == Some(v)
  }

  /** `apply_block_reward`. */
  function Reward(m: Stakes, b: Block, reward: nat): (r: Stakes)
    ensures r.Keys == m.Keys
  {
    match b.header.validatorId
    case Some(v) => if v != "" && v in m then m[v := m[v] + reward] else m
    case None => m
  }

  /** `compute_validators_from_chain`. */
  function Replay(chain: Chain, genesis: Stakes, reward: nat): (r: Stakes)
    ensures r.Keys == genesis.Keys
  {
    if chain == [] then genesis
    else Reward(Replay(chain[..|chain| - 1], genesis, reward), chain[|chain| - 1], reward)
  }

  lemma ReplayAppend(chain: Chain, b: Block, genesis: Stakes, reward: nat)
    ensures Replay(chain + [b], genesis, reward) == Reward(Replay(chain, genesis, reward), b, reward)
  {
    assert (chain + [b])[..|chain|] == chain;
  }

  /** Number of blocks of `chain` that credit `v`. */
  function CountBy(chain: Chain, v: string): nat {
    if chain == [] then 0
    else CountBy(chain[..|chain| - 1], v) + (if Credits(chain[|chain| - 1], v) then 1 else 0)
  }

  /** The block names a validator of `m`. */
  predicate NamesValidator(b: Block, m: Stakes) {
    b.header.validatorId.Some? && b.header.validatorId.value != "" && b.header.validatorId.value in m
  }

  /** Every block names a validator of the genesis set. */
  ghost predicate AllCredited(chain: Chain, genesis: Stakes) {
    forall i :: 0 <= i < |chain| ==> NamesValidator(chain[i], genesis)
  }

  lemma Successor(r: nat, n: nat)
    ensures r * (n + 1) == r * n + r
  {
  }

  /** A validator's stake after replay is its genesis stake plus one reward per block it proposed. */
  lemma {:induction false} ReplayStake(chain: Chain, genesis: Stakes, reward: nat, v: string)
    requires v in genesis
    ensures Replay(chain, genesis, reward)[v] == genesis[v] + reward * CountBy(chain, v)
  {
    if chain != [] {
      ReplayStake(chain[..|chain| - 1], genesis, reward, v);
      Successor(reward, CountBy(chain[..|chain| - 1], v));
    }
  }

  lemma {:induction false} RewardTotal(m: Stakes, b: Block, reward: nat, v: string)
    requires v in m && Credits(b, v)
    ensures Total(Reward(m, b, reward)) == Total(m) + reward
  {
    var m' := Reward(m, b, reward);
    SetTotalRemove(m.Keys, m, v);
    SetTotalRemove(m.Keys, m', v);
    SumOverSame(SortedKeys(m.Keys - {v}), m, m');
  }

  lemma {:induction false} SumOverSame(keys: seq<string>, m: Stakes, m': Stakes)
    requires forall k :: k in keys ==> StakeOf(m, k) == StakeOf(m', k)
    ensures SumOver(keys, m) == SumOver(keys, m')
  {
    if keys != [] {
      SumOverSame(keys[1..], m, m');
    }
  }

  /** Stake is created by rewards only: genesis total plus one reward per block. */
  lemma {:induction false} ReplayTotal(chain: Chain, genesis: Stakes, reward: nat)
    requires AllCredited(chain, genesis)
    ensures Total(Replay(chain, genesis, reward)) == Total(genesis) + reward * |chain|
  {
    if chain != [] {
      var before := chain[..|chain| - 1];
      ReplayTotal(before, genesis, reward);
      RewardTotal(Replay(before, genesis, reward), chain[|chain| - 1], reward,
                  chain[|chain| - 1].header.validatorId.value);
      Successor(reward, |before|);
    }
  }

  // ---------- fork weight ----------

  /** `_stake_weight`. */
  function StakeWeight(chain: Chain, m: Stakes): nat {
    if chain == [] then 0
    else
      var id := chain[|chain| - 1].header.validatorId;
      StakeWeight(chain[..|chain| - 1], m)
        + (if NamesValidator(chain[|chain| - 1], m) then m[id.value] else 0)
  }

  /** Sum over `keys` of n_v * stake_v, n_v the blocks of `chain` proposed by v. */
  function CountedStake(keys: seq<string>, chain: Chain, m: Stakes): nat {
    if keys == [] then 0
    else CountBy(chain, keys[0]) * StakeOf(m, keys[0]) + CountedStake(keys[1..], chain, m)
  }

  lemma {:induction false} CountedStakeEmpty(keys: seq<string>, m: Stakes)
    ensures CountedStake(keys, [], m) == 0
  {
    if keys != [] {
      CountedStakeEmpty(keys[1..], m);
    }
  }

  lemma {:induction false} CountedStakeSkip(keys: seq<string>, chain: Chain, m: Stakes)
    requires chain != []
    requires forall k :: k in keys && k in m ==> !Credits(chain[|chain| - 1], k)
    ensures CountedStake(keys, chain, m) == CountedStake(keys, chain[..|chain| - 1], m)
  {
    if keys != [] {
      CountedStakeSkip(keys[1..], chain, m);
    }
  }

  lemma {:induction false} CountedStakeStep(keys: seq<string>, chain: Chain, m: Stakes, v: string)
    requires chain != [] && Credits(chain[|chain| - 1], v) && v in keys && v in m && Ascending(keys)
    ensures CountedStake(keys, chain, m) == CountedStake(keys, chain[..|chain| - 1], m) + m[v]
  {
    LtIrreflexive(v);
    if keys[0] == v {
      CountedStakeSkip(keys[1..], chain, m);
      var n := CountBy(chain[..|chain| - 1], v);
      assert (n + 1) * m[v] == n * m[v] + m[v];
    } else {
      CountedStakeStep(keys[1..], chain, m, v);
    }
  }

  /** Fork weight counts, for every validator, its blocks times its stake. */
  lemma {:induction false} WeightByValidator(chain: Chain, m: Stakes)
    ensures StakeWeight(chain, m) == CountedStake(SortedKeys(m.Keys), chain, m)
  {
    var keys := SortedKeys(m.Keys);
    if chain == [] {
      CountedStakeEmpty(keys, m);
    } else {
      WeightByValidator(chain[..|chain| - 1], m);
      var id := chain[|chain| - 1].header.validatorId;
      if NamesValidator(chain[|chain| - 1], m) {
        CountedStakeStep(keys, chain, m, id.value);
      } else {
        CountedStakeSkip(keys, chain, m);
      }
    }
  }

  /** Sum over `keys` of n_v * (genesis_v + reward * n_v). */
  function WeightFormula(keys: seq<string>, chain: Chain, genesis: Stakes, reward: nat): nat {
    if keys == [] then 0
    else
      var n := CountBy(chain, keys[0]);
      n * (StakeOf(genesis, keys[0]) + reward * n) + WeightFormula(keys[1..], chain, genesis, reward)
  }

  lemma {:induction false} WeightFormulaStep(keys: seq<string>, chain: Chain, genesis: Stakes, reward: nat)
    requires forall k :: k in keys ==> k in genesis
    ensures CountedStake(keys, chain, Replay(chain, genesis, reward)) == WeightFormula(keys, chain, genesis, reward)
  {
    if keys != [] {
      ReplayStake(chain, genesis, reward, keys[0]);
      WeightFormulaStep(keys[1..], chain, genesis, reward);
    }
  }

  /** The fork-choice weight of a chain depends only on how many blocks each
      validator proposed: it is the sum of n_v * (genesis_v + reward * n_v). */
  lemma ForkWeight(chain: Chain, genesis: Stakes, reward: nat)
    ensures StakeWeight(chain, Replay(chain, genesis, reward))
         == WeightFormula(SortedKeys(genesis.Keys), chain, genesis, reward)
  {
    WeightByValidator(chain, Replay(chain, genesis, reward));
    WeightFormulaStep(SortedKeys(genesis.Keys), chain, genesis, reward);
  }

  // ---------- the same in closed form ----------

  /** Totals are sums: nothing for no key, and every further key adds its stake. */
  lemma SetTotalAdds(s: set<string>, m: Stakes, k: string)
    requires k in m && k !in s
    ensures SetTotal({}, m) == 0 && SetTotal(s + {k}, m) == SetTotal(s, m) + m[k]
  {
    SetTotalRemove(s + {k}, m, k);
    assert s + {k} - {k} == s;
  }

  /** The ids that sort before `v`. */
  function Smaller(ids: set<string>, v: string): set<string> {
    set u | u in ids && Lt(u, v)
  }

  /** The stake of the validators whose id sorts before `v`. */
  ghost function StakeBefore(m: Stakes, v: string): nat {
    SetTotal(Smaller(m.Keys, v), m)
  }

  function Elements(keys: seq<string>): set<string> {
    set u | u in keys
  }

  lemma FirstIsLeast(keys: seq<string>, u: string)
    requires Ascending(keys) && u in keys && u != keys[0]
    ensures Lt(keys[0], u)
  {
    var i :| 0 <= i < |keys| && keys[i] == u;
    assert i > 0;
  }

  lemma SmallerTail(keys: seq<string>, v: string)
    requires Ascending(keys) && v in keys && keys[0] != v
    ensures keys[0] in Smaller(Elements(keys), v)
    ensures Smaller(Elements(keys), v) - {keys[0]} == Smaller(Elements(keys[1..]), v)
  {
    FirstIsLeast(keys, v);
    assert keys == [keys[0]] + keys[1..];
    forall u | u in keys[1..] ensures u != keys[0] {
      var i :| 0 <= i < |keys[1..]| && keys[1..][i] == u;
      assert keys[i + 1] == u && Lt(keys[0], keys[i + 1]);
      LtIrreflexive(u);
    }
  }

  lemma {:induction false} ShareStartSum(keys: seq<string>, m: Stakes, v: string)
    requires Ascending(keys) && v in keys
    ensures ShareStart(keys, m, v) == SetTotal(Smaller(Elements(keys), v), m)
    decreases keys
  {
    if keys[0] == v {
      forall u | u in keys ensures !Lt(u, v) {
        LtIrreflexive(v);
        if u != v {
          FirstIsLeast(keys, u);
          LtAsymmetric(v, u);
        }
      }
      assert Smaller(Elements(keys), v) == {};
    } else {
      assert v in keys[1..];
      ShareStartSum(keys[1..], m, v);
      SmallerTail(keys, v);
      SetTotalRemove(Smaller(Elements(keys), v), m, keys[0]);
    }
  }

  /** The draw for a slot: `v` is selected if and only if the number that the hash of "slot-" and the
      slot in decimals writes in hexadecimal, taken modulo the total stake, falls on one of the
      stake(v) places that follow those of the validators with smaller ids. */
  lemma ProposerExactly(env: Crypto, slot: int, m: Stakes, v: string)
    ensures Proposer(env, slot, m).Success? <==> m != map[] && Total(m) > 0
    ensures Proposer(env, slot, m) == Success(v) <==>
      && v in m && Total(m) > 0
      && StakeBefore(m, v) <= HexValue(env.sha("slot-" + Str(slot))) % Total(m) < StakeBefore(m, v) + m[v]
  {
    if v in m && Total(m) > 0 {
      var pick := HexValue(env.sha("slot-" + Str(slot))) % Total(m);
      ModBelow(HexValue(env.sha("slot-" + Str(slot))), Total(m));
      ShareIsInterval(m, v, pick);
      ShareStartSum(SortedKeys(m.Keys), m, v);
      assert Elements(SortedKeys(m.Keys)) == m.Keys;
    } else if Proposer(env, slot, m).Success? {
      ProposerHasStake(env, slot, m);
    }
  }

  /** The positions of the blocks that `v` has proposed. */
  function BlocksBy(chain: Chain, v: string): set<int> {
    set i | 0 <= i < |chain| && chain[i].header.validatorId == Some(v)
  }

  lemma {:induction false} CountIsNumber(chain: Chain, v: string)
    requires v != ""
    ensures CountBy(chain, v) == |BlocksBy(chain, v)|
  {
    if chain != [] {
      var n := |chain| - 1;
      CountIsNumber(chain[..n], v);
      if chain[n].header.validatorId == Some(v) {
        assert BlocksBy(chain, v) == BlocksBy(chain[..n], v) + {n};
      } else {
        assert BlocksBy(chain, v) == BlocksBy(chain[..n], v);
      }
    }
  }

  lemma {:induction false} NobodyKeepsStake(chain: Chain, genesis: Stakes, reward: nat)
    requires "" in genesis
    ensures Replay(chain, genesis, reward)[""] == genesis[""]
  {
    if chain != [] {
      NobodyKeepsStake(chain[..|chain| - 1], genesis, reward);
    }
  }

  /** Replay in closed form: the genesis validators, each with its genesis stake and one reward for
      every block that names it; the empty id earns nothing. */
  lemma ReplayExactly(chain: Chain, genesis: Stakes, reward: nat, v: string)
    ensures v in Replay(chain, genesis, reward) <==> v in genesis
    ensures v in genesis ==>
      Replay(chain, genesis, reward)[v] == genesis[v] + (if v == "" then 0 else reward * |BlocksBy(chain, v)|)
  {
    if v in genesis {
      if v == "" {
        NobodyKeepsStake(chain, genesis, reward);
      } else {
        ReplayStake(chain, genesis, reward, v);
        CountIsNumber(chain, v);
      }
    }
  }

  /** Weights are sums over the blocks: a block counts with the stake of the validator it names. */
  lemma {:induction false} WeightAdds(a: Chain, b: Chain, m: Stakes)
    ensures StakeWeight(a + b, m) == StakeWeight(a, m) + StakeWeight(b, m)
    ensures |b| == 1 ==>
      StakeWeight(b, m) == (match b[0].header.validatorId
        case None => 0
        case Some(v) => if v != "" && v in m then m[v] else 0)
    decreases |b|
  {
    if b == [] {
      assert a + b == a;
    } else {
      var n := |b| - 1;
      assert (a + b)[..|a| + n] == a + b[..n];
      WeightAdds(a, b[..n], m);
      assert b[..0] == [];
    }
  }
}
