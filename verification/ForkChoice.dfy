/** Fork choice: scores, the canonical chain and fork resolution
    (the selectors of pow.py and pos.py, `_resolve_fork` of node.py). */
module ForkChoice {
  import opened Types
  import opened Text
  import opened StakeMaps
  import opened Rules

  /** A Python score tuple, compared lexicographically. */
  datatype Score = Score(major: int, minor: int, tie: string)

  predicate ScoreLt(a: Score, b: Score) {
    a.major < b.major
    || (a.major == b.major && a.minor < b.minor)
    || (a.major == b.major && a.minor == b.minor && Lt(a.tie, b.tie))
  }

  lemma ScoreTransitive(a: Score, b: Score, c: Score)
    requires ScoreLt(a, b) && ScoreLt(b, c)
    ensures ScoreLt(a, c)
  {
    if Lt(a.tie, b.tie) && Lt(b.tie, c.tie) {
      LtTransitive(a.tie, b.tie, c.tie);
    }
  }

  lemma ScoreTotal(a: Score, b: Score)
    ensures ScoreLt(a, b) || a == b || ScoreLt(b, a)
    ensures !(ScoreLt(a, b) && ScoreLt(b, a)) && !ScoreLt(a, a)
  {
    LtTotal(a.tie, b.tie);
    LtIrreflexive(a.tie);
    if Lt(a.tie, b.tie) {
      LtAsymmetric(a.tie, b.tie);
    }
  }

  /** `_total_difficulty`. */
  function TotalDifficulty(chain: Chain): int {
    if chain == [] then 0
    else TotalDifficulty(chain[..|chain| - 1]) + GetOr(chain[|chain| - 1].header.difficulty, 0)
  }

  /** The key `select_canonical_chain` maximises: (work, length) for PoW,
      (length, stake weight, tip hash) for PoS. */
  function ScoreOf(r: Rules, chain: Chain): Score
    requires !r.Legacy?
  {
    match r
    case Pow(_, _, _) => Score(TotalDifficulty(chain), |chain|, "")
    case Pos(_, _, reward, _, stakes) =>
      Score(|chain|, StakeWeight(chain, Replay(chain, stakes, reward)),
            if chain == [] then "" else GetOr(chain[|chain| - 1].header.tranHash, ""))
  }

  /** One candidate met while walking the list: the first of the best stays. */
  ghost function Prefer(r: Rules, best: Option<Chain>, candidate: Chain): Option<Chain>
    requires !r.Legacy?
  {
    if !ValidChain(r, candidate) then best
    else if best.None? || ScoreLt(ScoreOf(r, best.value), ScoreOf(r, candidate)) then Some(candidate)
    else best
  }

  ghost function BestOf(r: Rules, chains: seq<Chain>): Option<Chain>
    requires !r.Legacy?
  {
    if chains == [] then None
    else Prefer(r, BestOf(r, chains[..|chains| - 1]), chains[|chains| - 1])
  }

  /** The selection if no check raises: the first valid chain of maximal score, or the empty list. */
  ghost function Canonical(r: Rules, chains: seq<Chain>): Chain
    requires !r.Legacy?
  {
    GetOr(BestOf(r, chains), [])
  }

  /** The exception of the first candidate whose check raises one. */
  ghost function FirstRaise(r: Rules, chains: seq<Chain>): Option<string>
    decreases |chains|
  {
    if chains == [] then None
    else if CheckChain(r, chains[0]).Raises? then Some(CheckChain(r, chains[0]).error)
    else FirstRaise(r, chains[1..])
  }

  /** `select_canonical_chain`: an exception of a check leaves it. */
  ghost function Select(r: Rules, chains: seq<Chain>): Result<Chain>
    requires !r.Legacy?
  {
    var raised := FirstRaise(r, chains);
    if raised.Some? then Failure(raised.value) else Success(Canonical(r, chains))
  }

  lemma {:induction false} FirstRaiseExactly(r: Rules, chains: seq<Chain>)
    ensures FirstRaise(r, chains).Some? <==> exists c :: c in chains && CheckChain(r, c).Raises?
    decreases |chains|
  {
    if chains != [] {
      FirstRaiseExactly(r, chains[1..]);
      assert chains == [chains[0]] + chains[1..];
    }
  }

  /** chains[k] is valid, no valid chain scores higher, and every valid chain before it scores lower. */
  ghost predicate IsFirstMaximum(r: Rules, chains: seq<Chain>, k: nat)
    requires !r.Legacy?
  {
    k < |chains| && ValidChain(r, chains[k])
    && (forall j :: 0 <= j < |chains| && ValidChain(r, chains[j]) ==> !ScoreLt(ScoreOf(r, chains[k]), ScoreOf(r, chains[j])))
    && (forall j :: 0 <= j < k && ValidChain(r, chains[j]) ==> ScoreLt(ScoreOf(r, chains[j]), ScoreOf(r, chains[k])))
  }

  /** The best is missing only without valid candidates, and otherwise is the first maximum. */
  lemma {:induction false} CanonicalIsFirstMaximum(r: Rules, chains: seq<Chain>)
    requires !r.Legacy?
    ensures BestOf(r, chains).None? <==> forall c :: c in chains ==> !ValidChain(r, c)
    ensures BestOf(r, chains).Some? ==> exists k: nat :: IsFirstMaximum(r, chains, k) && chains[k] == Canonical(r, chains)
  {
    if chains != [] {
      var n := |chains| - 1;
      var front, last := chains[..n], chains[n];
      CanonicalIsFirstMaximum(r, front);
      assert chains == front + [last];
      ScoreTotal(ScoreOf(r, last), ScoreOf(r, last));
      if BestOf(r, front).None? {
        if ValidChain(r, last) {
          assert IsFirstMaximum(r, chains, n);
        }
      } else {
        var k: nat :| IsFirstMaximum(r, front, k) && front[k] == Canonical(r, front);
        if ValidChain(r, last) && ScoreLt(ScoreOf(r, front[k]), ScoreOf(r, last)) {
          NewMaximum(r, front, last, k);
          assert IsFirstMaximum(r, chains, n);
        } else {
          OldMaximum(r, front, last, k);
        }
      }
    }
  }

  /** The selector raises exactly when the check of some candidate does; otherwise it gives the
      empty list when nothing is valid, and else the first maximum. */
  lemma SelectExactly(r: Rules, chains: seq<Chain>)
    requires !r.Legacy?
    ensures Select(r, chains).Failure? <==> exists c :: c in chains && CheckChain(r, c).Raises?
    ensures Select(r, chains).Success? && (forall c :: c in chains ==> !ValidChain(r, c)) ==> Select(r, chains).value == []
    ensures (
      Select(r, chains).Success? && (exists c :: c in chains && ValidChain(r, c))
      ==> exists k: nat :: IsFirstMaximum(r, chains, k) && chains[k] == Select(r, chains).value)
  {
    FirstRaiseExactly(r, chains);
    CanonicalIsFirstMaximum(r, chains);
  }

  lemma OldMaximum(r: Rules, front: seq<Chain>, last: Chain, k: nat)
    requires !r.Legacy? && IsFirstMaximum(r, front, k)
    requires !(ValidChain(r, last) && ScoreLt(ScoreOf(r, front[k]), ScoreOf(r, last)))
    ensures IsFirstMaximum(r, front + [last], k)
  {
  }

  lemma NewMaximum(r: Rules, front: seq<Chain>, last: Chain, k: nat)
    requires !r.Legacy? && IsFirstMaximum(r, front, k)
    requires ScoreLt(ScoreOf(r, front[k]), ScoreOf(r, last))
    ensures forall j :: 0 <= j < |front| && ValidChain(r, front[j]) ==>
      ScoreLt(ScoreOf(r, front[j]), ScoreOf(r, last)) && !ScoreLt(ScoreOf(r, last), ScoreOf(r, front[j]))
  {
    forall j | 0 <= j < |front| && ValidChain(r, front[j])
      ensures ScoreLt(ScoreOf(r, front[j]), ScoreOf(r, last)) && !ScoreLt(ScoreOf(r, last), ScoreOf(r, front[j]))
    {
      ScoreTotal(ScoreOf(r, front[k]), ScoreOf(r, front[j]));
      if ScoreLt(ScoreOf(r, front[j]), ScoreOf(r, front[k])) {
        ScoreTransitive(ScoreOf(r, front[j]), ScoreOf(r, front[k]), ScoreOf(r, last));
      }
      ScoreTotal(ScoreOf(r, front[j]), ScoreOf(r, last));
    }
  }

  // ---------- `_resolve_fork` ----------

  /** `_join_chain_suffix`. */
  function JoinSuffix(local: Chain, suffix: Chain): Option<Chain>
    requires local != [] && suffix != []
  {
    if suffix[0].header.prevHash != local[|local| - 1].header.tranHash then None else Some(local + suffix)
  }

  /** The chains `_resolve_fork` puts before the selector. */
  function Candidates(local: Chain, remote: Chain): seq<Chain>
    requires remote != []
  {
    if local == [] then [remote] else [local, GetOr(JoinSuffix(local, remote), remote)]
  }

  /** `_resolve_fork`: the chain the node holds afterwards, also when the selector raises. */
  ghost function Resolve(r: Rules, local: Chain, remote: Chain): Chain
    requires !r.Legacy?
  {
    if remote == [] then local
    else
      var canonical := Select(r, Candidates(local, remote));
      if canonical.Success? && canonical.value != [] && canonical.value != local && ValidChain(r, canonical.value)
      then canonical.value else local
  }

  /** A block that passes makes the chain score strictly higher. */
  lemma AppendRaisesScore(r: Rules, chain: Chain, b: Block)
    requires !r.Legacy? && Accepts(r, chain, b)
    ensures ScoreLt(ScoreOf(r, chain), ScoreOf(r, chain + [b]))
  {
    assert (chain + [b])[..|chain|] == chain;
  }

  lemma ValidBeatsEmpty(r: Rules, chain: Chain)
    requires !r.Legacy? && ValidChain(r, chain) && chain != []
    ensures ScoreLt(ScoreOf(r, []), ScoreOf(r, chain))
    decreases chain
  {
    var n := |chain| - 1;
    assert chain == chain[..n] + [chain[n]];
    assert Accepts(r, chain[..n], chain[n]);
    AppendRaisesScore(r, chain[..n], chain[n]);
    PrefixValid(r, chain, n);
    if n > 0 {
      ValidBeatsEmpty(r, chain[..n]);
      ScoreTransitive(ScoreOf(r, []), ScoreOf(r, chain[..n]), ScoreOf(r, chain));
    } else {
      assert chain[..n] == [];
    }
  }

  /** The chain that competes with the local one. */
  function Candidate(local: Chain, remote: Chain): Chain
    requires remote != []
  {
    if local == [] then remote else GetOr(JoinSuffix(local, remote), remote)
  }

  /** The selector raises exactly when the candidate's check does. */
  lemma ResolveRaises(r: Rules, local: Chain, remote: Chain)
    requires !r.Legacy? && ValidChain(r, local) && remote != []
    ensures Select(r, Candidates(local, remote)).Failure? <==> CheckChain(r, Candidate(local, remote)).Raises?
  {
    CheckedIsValid(r, local);
    var candidate := Candidate(local, remote);
    assert [candidate][1..] == [] && [local, candidate][1..] == [candidate];
    assert FirstRaise(r, [candidate]).Some? <==> CheckChain(r, candidate).Raises?;
  }

  lemma CanonicalIs(r: Rules, local: Chain, remote: Chain)
    requires !r.Legacy? && ValidChain(r, local) && remote != []
    ensures var candidate, canonical := Candidate(local, remote), Canonical(r, Candidates(local, remote));
      (canonical == if ValidChain(r, candidate) && ScoreLt(ScoreOf(r, local), ScoreOf(r, candidate)) then candidate else local)
  {
    var candidate := Candidate(local, remote);
    if local == [] {
      assert [candidate][..0] == [];
      assert BestOf(r, [candidate]) == Prefer(r, None, candidate);
      if ValidChain(r, candidate) {
        ValidBeatsEmpty(r, candidate);
      }
    } else {
      var pair := [local, candidate];
      assert pair[..1] == [local] && [local][..0] == [];
      assert BestOf(r, [local]) == Some(local);
      assert BestOf(r, pair) == Prefer(r, Some(local), candidate);
    }
  }

  /** Resolution in closed form: the candidate wins exactly when it is valid and scores strictly
      higher, so the local chain wins ties, and a candidate whose check raises changes nothing. */
  lemma ResolveIs(r: Rules, local: Chain, remote: Chain)
    requires !r.Legacy? && ValidChain(r, local) && remote != []
    ensures var candidate := Candidate(local, remote);
      Resolve(r, local, remote) ==
        if ValidChain(r, candidate) && ScoreLt(ScoreOf(r, local), ScoreOf(r, candidate)) then candidate else local
  {
    var candidate := Candidate(local, remote);
    CanonicalIs(r, local, remote);
    ResolveRaises(r, local, remote);
    CheckedIsValid(r, candidate);
    ScoreTotal(ScoreOf(r, local), ScoreOf(r, local));
    if local == [] && ValidChain(r, candidate) {
      ValidBeatsEmpty(r, candidate);
    }
  }

  /** Whatever arrives, the chain stays valid and it is unchanged or scores strictly higher. */
  lemma ResolveProgress(r: Rules, local: Chain, remote: Chain)
    requires !r.Legacy? && ValidChain(r, local)
    ensures ValidChain(r, Resolve(r, local, remote))
    ensures Resolve(r, local, remote) == local
         || ScoreLt(ScoreOf(r, local), ScoreOf(r, Resolve(r, local, remote)))
  {
    if remote != [] {
      ResolveIs(r, local, remote);
    }
  }

  // ---------- confluence ----------

  /** A candidate that claims to be a whole chain. */
  ghost predicate FullCandidate(r: Rules, c: Chain) {
    c != [] ==> c[0].header.prevHash == Some(r.genesis)
  }

  /** The tip hash of `c` is not the genesis value. */
  ghost predicate TipIsNotGenesis(r: Rules, c: Chain) {
    c != [] ==> c[|c| - 1].header.tranHash != Some(r.genesis)
  }

  lemma ResolveFull(r: Rules, local: Chain, c: Chain)
    requires !r.Legacy? && ValidChain(r, local) && FullCandidate(r, c) && TipIsNotGenesis(r, local)
    ensures Resolve(r, local, c) ==
      if ValidChain(r, c) && ScoreLt(ScoreOf(r, local), ScoreOf(r, c)) then c else local
  {
    if c == [] {
      ScoreTotal(ScoreOf(r, []), ScoreOf(r, []));
      if local != [] {
        ValidBeatsEmpty(r, local);
        ScoreTotal(ScoreOf(r, []), ScoreOf(r, local));
      }
    } else {
      ResolveIs(r, local, c);
    }
  }

  lemma JoinedFullIsInvalid(r: Rules, local: Chain, c: Chain)
    requires ValidChain(r, c) && local != [] && c != []
    ensures !ValidChain(r, local + c)
  {
    ValidLinks(r, c, 0);
    if ValidChain(r, local + c) {
      ValidLinks(r, local + c, |local|);
    }
  }

  /** A better whole chain is adopted exactly when the local tip hash is not the genesis
      value; with such a tip the candidate is taken for a continuation and lost. */
  lemma BetterChainAdoptedExactly(r: Rules, local: Chain, c: Chain)
    requires !r.Legacy? && ValidChain(r, local) && ValidChain(r, c) && ScoreLt(ScoreOf(r, local), ScoreOf(r, c))
    ensures Resolve(r, local, c) == c <==> TipIsNotGenesis(r, local)
  {
    BetterIsNotEmpty(r, local, c);
    ValidLinks(r, c, 0);
    ScoreTotal(ScoreOf(r, local), ScoreOf(r, c));
    if TipIsNotGenesis(r, local) {
      ResolveFull(r, local, c);
    } else {
      JoinedFullIsInvalid(r, local, c);
      ResolveIs(r, local, c);
    }
  }

  lemma BetterIsNotEmpty(r: Rules, local: Chain, c: Chain)
    requires !r.Legacy? && ValidChain(r, local) && ScoreLt(ScoreOf(r, local), ScoreOf(r, c))
    ensures c != []
  {
    ScoreTotal(ScoreOf(r, local), ScoreOf(r, c));
    if c == [] && local != [] {
      ValidBeatsEmpty(r, local);
    }
  }

  /** Resolving candidates one at a time. */
  ghost function ResolveAll(r: Rules, local: Chain, candidates: seq<Chain>): Chain
    requires !r.Legacy?
    decreases |candidates|
  {
    if candidates == [] then local else ResolveAll(r, Resolve(r, local, candidates[0]), candidates[1..])
  }

  ghost predicate Comparable(r: Rules, chains: seq<Chain>) {
    forall c :: c in chains ==> FullCandidate(r, c) && TipIsNotGenesis(r, c)
  }

  /** The end of a run is valid, is one of the chains seen, and no valid chain seen scores higher. */
  lemma {:induction false} ResolveAllMaximal(r: Rules, local: Chain, candidates: seq<Chain>)
    requires !r.Legacy? && ValidChain(r, local) && Comparable(r, [local] + candidates)
    ensures var end := ResolveAll(r, local, candidates);
      ValidChain(r, end) && end in [local] + candidates
      && forall c :: c in [local] + candidates && ValidChain(r, c) ==> !ScoreLt(ScoreOf(r, end), ScoreOf(r, c))
    decreases |candidates|
  {
    assert local in [local] + candidates;
    if candidates == [] {
      ScoreTotal(ScoreOf(r, local), ScoreOf(r, local));
    } else {
      var next := Resolve(r, local, candidates[0]);
      assert candidates[0] in [local] + candidates;
      ResolveFull(r, local, candidates[0]);
      forall c | c in [next] + candidates[1..] ensures c in [local] + candidates {
      }
      ResolveAllMaximal(r, next, candidates[1..]);
      var end := ResolveAll(r, local, candidates);
      forall c | c in [local] + candidates && ValidChain(r, c) ensures !ScoreLt(ScoreOf(r, end), ScoreOf(r, c)) {
        if c !in [next] + candidates[1..] {
          assert next in [next] + candidates[1..];
          StayMaximal(r, end, next, c, local, candidates[0]);
        }
      }
    }
  }

  lemma StayMaximal(r: Rules, end: Chain, next: Chain, c: Chain, local: Chain, first: Chain)
    requires !r.Legacy? && ValidChain(r, c) && (c == local || c == first)
    requires !ScoreLt(ScoreOf(r, end), ScoreOf(r, next))
    requires next == if ValidChain(r, first) && ScoreLt(ScoreOf(r, local), ScoreOf(r, first)) then first else local
    ensures !ScoreLt(ScoreOf(r, end), ScoreOf(r, c))
  {
    ScoreTotal(ScoreOf(r, next), ScoreOf(r, c));
    ScoreTotal(ScoreOf(r, local), ScoreOf(r, first));
    assert !ScoreLt(ScoreOf(r, next), ScoreOf(r, c));
    if ScoreLt(ScoreOf(r, end), ScoreOf(r, c)) && ScoreLt(ScoreOf(r, c), ScoreOf(r, next)) {
      ScoreTransitive(ScoreOf(r, end), ScoreOf(r, c), ScoreOf(r, next));
    }
  }

  /** Confluence: two nodes that have seen the same chains, each starting from
      its own and resolving the others in any order, end at equal scores. */
  lemma Confluence(r: Rules, a: Chain, seenByA: seq<Chain>, b: Chain, seenByB: seq<Chain>)
    requires !r.Legacy? && ValidChain(r, a) && ValidChain(r, b)
    requires forall c :: c in [a] + seenByA <==> c in [b] + seenByB
    requires Comparable(r, [a] + seenByA)
    ensures ScoreOf(r, ResolveAll(r, a, seenByA)) == ScoreOf(r, ResolveAll(r, b, seenByB))
  {
    ResolveAllMaximal(r, a, seenByA);
    ResolveAllMaximal(r, b, seenByB);
    ScoreTotal(ScoreOf(r, ResolveAll(r, a, seenByA)), ScoreOf(r, ResolveAll(r, b, seenByB)));
  }

  // ---------- fork choice in terms of work, length, stake and tip hash ----------

  /** Work is a sum: a block counts with its declared difficulty, or zero. */
  lemma {:induction false} WorkAdds(a: Chain, b: Chain)
    ensures TotalDifficulty(a + b) == TotalDifficulty(a) + TotalDifficulty(b)
    ensures |b| == 1 ==> TotalDifficulty(b) == if b[0].header.difficulty.Some? then b[0].header.difficulty.value else 0
    decreases |b|
  {
    if b == [] {
      assert a + b == a;
    } else {
      var n := |b| - 1;
      assert (a + b)[..|a| + n] == a + b[..n];
      WorkAdds(a, b[..n]);
      assert b[..0] == [];
    }
  }

  /** More work, or the same work in more blocks. */
  predicate MoreWork(a: Chain, b: Chain) {
    TotalDifficulty(a) > TotalDifficulty(b) || (TotalDifficulty(a) == TotalDifficulty(b) && |a| > |b|)
  }

  /** The stakes, after the chain's own rewards, of those who proposed its blocks. */
  function WeightOf(r: Rules, chain: Chain): nat
    requires r.Pos?
  {
    StakeWeight(chain, Replay(chain, r.stakes, r.reward))
  }

  function TipHash(chain: Chain): string {
    if chain == [] || chain[|chain| - 1].header.tranHash.None? then "" else chain[|chain| - 1].header.tranHash.value
  }

  /** Longer; or as long and of more weight; or that too equal and of a later tip hash. */
  predicate MoreStake(r: Rules, a: Chain, b: Chain)
    requires r.Pos?
  {
    if |a| != |b| then |a| > |b|
    else if WeightOf(r, a) != WeightOf(r, b) then WeightOf(r, a) > WeightOf(r, b)
    else Lt(TipHash(b), TipHash(a))
  }

  /** `a` beats `b`. */
  predicate Beats(r: Rules, a: Chain, b: Chain)
    requires !r.Legacy?
  {
    if r.Pow? then MoreWork(a, b) else MoreStake(r, a, b)
  }

  /** The order of the scores. */
  lemma BeatsByScore(r: Rules, a: Chain, b: Chain)
    requires !r.Legacy?
    ensures Beats(r, a, b) <==> ScoreLt(ScoreOf(r, b), ScoreOf(r, a))
    ensures ScoreOf(r, a) == ScoreOf(r, b) <==>
      if r.Pow? then TotalDifficulty(a) == TotalDifficulty(b) && |a| == |b|
      else |a| == |b| && WeightOf(r, a) == WeightOf(r, b) && TipHash(a) == TipHash(b)
  {
    LtIrreflexive(TipHash(a));
  }

  /** The selected chain is one of the candidates and valid; no valid candidate beats it, and it beats
      every valid candidate that comes before it. */
  ghost predicate Selected(r: Rules, chains: seq<Chain>, k: nat)
    requires !r.Legacy?
  {
    && k < |chains| && ValidChain(r, chains[k])
    && (forall j :: 0 <= j < |chains| && ValidChain(r, chains[j]) ==> !Beats(r, chains[j], chains[k]))
    && (forall j :: 0 <= j < k && ValidChain(r, chains[j]) ==> Beats(r, chains[k], chains[j]))
  }

  lemma MaximumIsSelected(r: Rules, chains: seq<Chain>, k: nat)
    requires !r.Legacy? && IsFirstMaximum(r, chains, k)
    ensures Selected(r, chains, k)
  {
    forall j | 0 <= j < |chains|
      ensures Beats(r, chains[j], chains[k]) <==> ScoreLt(ScoreOf(r, chains[k]), ScoreOf(r, chains[j]))
      ensures Beats(r, chains[k], chains[j]) <==> ScoreLt(ScoreOf(r, chains[j]), ScoreOf(r, chains[k]))
    {
      BeatsByScore(r, chains[j], chains[k]);
      BeatsByScore(r, chains[k], chains[j]);
    }
  }

  /** `select_canonical_chain`: most work under PoW, ties going to the longer chain; under PoS the longest
      chain, then the one of most weight, then the one of the latest tip hash; then the first. */
  lemma SelectsBest(r: Rules, chains: seq<Chain>)
    requires !r.Legacy? && Select(r, chains).Success? && exists c :: c in chains && ValidChain(r, c)
    ensures exists k: nat :: Selected(r, chains, k) && chains[k] == Select(r, chains).value
  {
    SelectExactly(r, chains);
    var k: nat :| IsFirstMaximum(r, chains, k) && chains[k] == Select(r, chains).value;
    MaximumIsSelected(r, chains, k);
  }

  /** Fork resolution: blocks that continue the local tip are joined to the local chain, any others stand for
      themselves; the result is adopted if and only if it is valid and beats the local chain. */
  lemma ResolveExactly(r: Rules, local: Chain, remote: Chain)
    requires !r.Legacy? && ValidChain(r, local)
    ensures remote == [] ==> Resolve(r, local, remote) == local
    ensures (
      remote != [] && local != [] && remote[0].header.prevHash == local[|local| - 1].header.tranHash
      ==> Resolve(r, local, remote) ==
            if ValidChain(r, local + remote) && Beats(r, local + remote, local) then local + remote else local)
    ensures (
      remote != [] && (local == [] || remote[0].header.prevHash != local[|local| - 1].header.tranHash)
      ==> Resolve(r, local, remote) ==
            if ValidChain(r, remote) && Beats(r, remote, local) then remote else local)
  {
    if remote != [] {
      ResolveIs(r, local, remote);
      BeatsByScore(r, Candidate(local, remote), local);
    }
  }

  /** Confluence in the same terms: nodes that have seen the same chains end at equal work and length, or at
      equal length, weight and tip hash. */
  lemma ConfluenceExactly(r: Rules, a: Chain, seenByA: seq<Chain>, b: Chain, seenByB: seq<Chain>)
    requires !r.Legacy? && ValidChain(r, a) && ValidChain(r, b)
    requires forall c :: c in [a] + seenByA <==> c in [b] + seenByB
    requires Comparable(r, [a] + seenByA)
    ensures var x, y := ResolveAll(r, a, seenByA), ResolveAll(r, b, seenByB);
      && |x| == |y|
      && (r.Pow? ==> TotalDifficulty(x) == TotalDifficulty(y))
      && (r.Pos? ==> WeightOf(r, x) == WeightOf(r, y) && TipHash(x) == TipHash(y))
  {
    Confluence(r, a, seenByA, b, seenByB);
    BeatsByScore(r, ResolveAll(r, a, seenByA), ResolveAll(r, b, seenByB));
  }
}
