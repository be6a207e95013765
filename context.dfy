/** The combat state and the reducer: a pure (State, Action) -> State
    function over six action tags. */
module Context {
  import opened Resources

  /** The single root of the game state. */
  datatype State = State(
    playerHealth: int,
    enemies: seq<EnemyState>,
    spells: seq<SpellState>,
    spellSlots: seq<SpellSlotState>,
    currentSlot: int,
    currentSpell: int,
    playerTurn: bool)

  /** A copy-on-write update: the draft recipe handed to `produce`, seen as
      the state it yields. */
  type Mutation = State -> State

  /** The closed vocabulary of actions the reducer accepts. */
  datatype Action =
    | ChangeSpell(spell: int)
    | EnemyAction(mutation: Mutation)
    | EndTurn
    | StartTurn
    | EnemiesDied(indices: seq<int>)
    | CastSpell(mutation: Mutation)

  /** `xs.filter((_, index) => !ix.includes(index))`. */
  function WithoutIndices<T>(xs: seq<T>, ix: seq<int>): (r: seq<T>)
    ensures |r| <= |xs|
  {
    if xs == [] then []
    else WithoutIndices(xs[..|xs| - 1], ix) + (if |xs| - 1 in ix then [] else [xs[|xs| - 1]])
  }

  /** The slot that follows `currentSlot` when a turn starts. */
  function NextSlot(currentSlot: int, slotCount: int): (r: int)
    ensures 0 <= currentSlot < slotCount ==> r == (currentSlot + 1) % slotCount
  {
    if currentSlot == slotCount - 1 then 0 else currentSlot + 1
  }

  /** The reducer: the only place a new state is produced. */
  function Reducer(state: State, action: Action): (r: State)
    ensures !action.CastSpell? && !action.EnemyAction? ==>
              r.playerHealth == state.playerHealth && r.spells == state.spells &&
              r.spellSlots == state.spellSlots
  {
    match action
    case ChangeSpell(spell) => state.(currentSpell := spell)
    case EnemyAction(mutation) => mutation(state)
    case EndTurn => state.(playerTurn := false)
    case StartTurn =>
      state.(playerTurn := true,
             currentSlot := NextSlot(state.currentSlot, |state.spellSlots|))
    case EnemiesDied(indices) => state.(enemies := WithoutIndices(state.enemies, indices))
    case CastSpell(mutation) => mutation(state)
  }

  // ---------------------------------------------------------------------
  // The individual transitions

  /** `changeSpell` sets the current spell, unchecked, and changes nothing else. */
  lemma ChangeSpellFrame(s: State, spell: int)
    ensures var r := Reducer(s, ChangeSpell(spell));
      r.currentSpell == spell &&
      r.playerHealth == s.playerHealth && r.enemies == s.enemies && r.spells == s.spells &&
      r.spellSlots == s.spellSlots && r.currentSlot == s.currentSlot &&
      r.playerTurn == s.playerTurn
  {
  }

  /** `endTurn` clears the turn flag and changes nothing else. */
  lemma EndTurnFrame(s: State)
    ensures var r := Reducer(s, EndTurn);
      !r.playerTurn &&
      r.playerHealth == s.playerHealth && r.enemies == s.enemies && r.spells == s.spells &&
      r.spellSlots == s.spellSlots && r.currentSlot == s.currentSlot &&
      r.currentSpell == s.currentSpell
  {
  }

  /** `startTurn` sets the turn flag and advances the slot cyclically; from a
      slot in range the new slot is in range. */
  lemma StartTurnAdvance(s: State)
    ensures var r := Reducer(s, StartTurn);
      r.playerTurn &&
      (s.currentSlot == |s.spellSlots| - 1 ==> r.currentSlot == 0) &&
      (s.currentSlot != |s.spellSlots| - 1 ==> r.currentSlot == s.currentSlot + 1) &&
      (0 <= s.currentSlot < |s.spellSlots| ==>
         r.currentSlot == (s.currentSlot + 1) % |s.spellSlots| &&
         0 <= r.currentSlot < |s.spellSlots|) &&
      r.playerHealth == s.playerHealth && r.enemies == s.enemies && r.spells == s.spells &&
      r.spellSlots == s.spellSlots && r.currentSpell == s.currentSpell
  {
  }

  /** The state after `k` consecutive `startTurn` actions. */
  function StartTurns(s: State, k: nat): (r: State)
    ensures r.spellSlots == s.spellSlots
  {
    if k == 0 then s else Reducer(StartTurns(s, k - 1), StartTurn)
  }

  /** From a slot in range, k turn starts move the slot k places around the cycle. */
  lemma {:induction false} StartTurnsSlot(s: State, k: nat)
    requires 0 <= s.currentSlot < |s.spellSlots|
    ensures StartTurns(s, k).currentSlot == (s.currentSlot + k) % |s.spellSlots|
  {
    if k > 0 {
      StartTurnsSlot(s, k - 1);
      var n := |s.spellSlots|;
      var c := StartTurns(s, k - 1).currentSlot;
      assert NextSlot(c, n) == (c + 1) % n;
      ModSucc(s.currentSlot + k - 1, n);
    }
  }

  lemma ModSucc(a: int, n: int)
    requires n > 0
    ensures (a % n + 1) % n == (a + 1) % n
  {
    var q, r := a / n, a % n;
    if r + 1 < n {
      ModUnique(a + 1, n, q, r + 1);
      ModUnique(r + 1, n, 0, r + 1);
    } else {
      ModUnique(a + 1, n, q + 1, 0);
      ModUnique(n, n, 1, 0);
    }
  }

  /** Euclidean division has unique quotient and remainder. */
  lemma ModUnique(x: int, n: int, q: int, r: int)
    requires n > 0 && 0 <= r < n && x == q * n + r
    ensures x % n == r
  {
    var q', r' := x / n, x % n;
    assert (q - q') * n == r' - r;
    if q > q' {
      MulAtLeast(q - q', n);
    } else if q < q' {
      MulAtLeast(q' - q, n);
    }
  }

  lemma MulAtLeast(a: int, n: int)
    requires a >= 1 && n > 0
    ensures a * n >= n
  {
  }

  /** As many turn starts as there are slots bring the slot back to where it was. */
  lemma StartTurnsPeriod(s: State)
    requires 0 <= s.currentSlot < |s.spellSlots|
    ensures StartTurns(s, |s.spellSlots|).currentSlot == s.currentSlot
    ensures StartTurns(s, |s.spellSlots|).playerTurn
  {
    StartTurnsSlot(s, |s.spellSlots|);
    ModUnique(s.currentSlot + |s.spellSlots|, |s.spellSlots|, 1, s.currentSlot);
  }

  /** `castSpell` and `enemyAction` yield exactly the mutation applied to the
      state; the reducer adds nothing of its own. */
  lemma MutationActions(s: State, m: Mutation)
    ensures Reducer(s, CastSpell(m)) == m(s)
    ensures Reducer(s, EnemyAction(m)) == m(s)
  {
  }

  /** `enemiesDied` replaces the enemy list by its filtered copy and changes nothing else. */
  lemma EnemiesDiedFrame(s: State, ix: seq<int>)
    ensures var r := Reducer(s, EnemiesDied(ix));
      r.enemies == WithoutIndices(s.enemies, ix) &&
      r.playerHealth == s.playerHealth && r.spells == s.spells &&
      r.spellSlots == s.spellSlots && r.currentSlot == s.currentSlot &&
      r.currentSpell == s.currentSpell && r.playerTurn == s.playerTurn
  {
  }

  // ---------------------------------------------------------------------
  // Index removal

  /** The ascending positions below n that are not listed in ix: the
      reference for which elements the filter keeps. */
  function KeptPositions(n: nat, ix: seq<int>): (r: seq<nat>)
    ensures |r| <= n
    ensures forall j :: 0 <= j < |r| ==> r[j] < n
  {
    if n == 0 then [] else KeptPositions(n - 1, ix) + (if n - 1 in ix then [] else [n - 1])
  }

  /** KeptPositions lists exactly the unlisted positions in range, in strictly ascending order. */
  lemma {:induction false} KeptPositionsExact(n: nat, ix: seq<int>)
    ensures var k := KeptPositions(n, ix);
      (forall j :: 0 <= j < |k| ==> k[j] < n && k[j] !in ix) &&
      (forall a, b :: 0 <= a < b < |k| ==> k[a] < k[b]) &&
      (forall i :: 0 <= i < n && i !in ix ==> i in k)
  {
    if n > 0 {
      KeptPositionsExact(n - 1, ix);
    }
  }

  /** The filter keeps, in order, the elements at the kept positions. */
  lemma {:induction false} WithoutIndicesOrder<T>(xs: seq<T>, ix: seq<int>)
    ensures var k := KeptPositions(|xs|, ix);
      |WithoutIndices(xs, ix)| == |k| &&
      forall j :: 0 <= j < |k| ==> WithoutIndices(xs, ix)[j] == xs[k[j]]
  {
    if xs != [] {
      var n := |xs|;
      WithoutIndicesOrder(xs[..n - 1], ix);
      KeptPositionsExact(n - 1, ix);
    }
  }

  /** The listed positions that fall inside a list of length n. */
  function ListedInRange(n: nat, ix: seq<int>): set<int>
  {
    set i | i in ix && 0 <= i < n
  }

  /** Out-of-range and repeated indices are ignored: the list shrinks by the
      number of distinct listed positions in range. */
  lemma {:induction false} WithoutIndicesLength<T>(xs: seq<T>, ix: seq<int>)
    ensures |WithoutIndices(xs, ix)| == |xs| - |ListedInRange(|xs|, ix)|
  {
    var n := |xs|;
    if n == 0 {
      assert ListedInRange(0, ix) == {};
    } else {
      WithoutIndicesLength(xs[..n - 1], ix);
      if n - 1 in ix {
        assert ListedInRange(n, ix) == ListedInRange(n - 1, ix) + {n - 1};
      } else {
        assert ListedInRange(n, ix) == ListedInRange(n - 1, ix);
      }
    }
  }

  /** An empty index list leaves the list unchanged. */
  lemma {:induction false} WithoutNoIndices<T>(xs: seq<T>)
    ensures WithoutIndices(xs, []) == xs
  {
    if xs != [] {
      WithoutNoIndices(xs[..|xs| - 1]);
    }
  }

  /** The filter only looks at listed positions inside the list. */
  lemma {:induction false} WithoutIndicesInRange<T>(xs: seq<T>, ix1: seq<int>, ix2: seq<int>)
    requires forall i :: 0 <= i < |xs| ==> (i in ix1 <==> i in ix2)
    ensures WithoutIndices(xs, ix1) == WithoutIndices(xs, ix2)
  {
    if xs != [] {
      WithoutIndicesInRange(xs[..|xs| - 1], ix1, ix2);
    }
  }
}
