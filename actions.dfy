/** One full player turn: end the turn, cast, detect and remove the dead,
    let the survivors act in order, start the next turn. Animation waits are
    not part of the model. */
module Actions {
  import opened Wrappers
  import opened Resources
  import opened Context
  import Fireball

  /** `getSpell(name).cast(target, snapshot, dispatch)`, seen as the mutation
      it dispatches with `castSpell`. */
  type CastFn = (string, int, State) -> Mutation

  /** `getEnemy(name).act(index, snapshot, dispatch)`, seen as the mutation
      it dispatches with `enemyAction`. */
  type ActFn = (string, int, State) -> Mutation

  /** How a turn ended: the current spell could not be read (the turn stops,
      as the source throws), every enemy died, or the next turn started. */
  datatype TurnEnd = SpellMissing | Victory | NextTurn

  /** The state reached and the actions dispatched, in order. */
  datatype Run = Run(state: State, dispatched: seq<Action>)

  /** The final state of a turn, the actions it dispatched, and how it ended. */
  datatype Turn = Turn(end: TurnEnd, state: State, dispatched: seq<Action>)

  /** The state the reducer produces from `s` for a sequence of actions. */
  function Replay(s: State, actions: seq<Action>): (r: State)
    ensures |actions| > 0 && actions[|actions| - 1].StartTurn? ==> r.playerTurn
    ensures |actions| > 0 && actions[|actions| - 1].EndTurn? ==> !r.playerTurn
  {
    if actions == [] then s
    else Reducer(Replay(s, actions[..|actions| - 1]), actions[|actions| - 1])
  }

  /** Without mutation actions, a replay never changes player health, spells or slots. */
  lemma {:induction false} ReplayKeepsLoadout(s: State, actions: seq<Action>)
    requires forall i :: 0 <= i < |actions| ==> !actions[i].CastSpell? && !actions[i].EnemyAction?
    ensures var r := Replay(s, actions);
      r.playerHealth == s.playerHealth && r.spells == s.spells && r.spellSlots == s.spellSlots
  {
    if actions != [] {
      ReplayKeepsLoadout(s, actions[..|actions| - 1]);
    }
  }

  lemma {:induction false} ReplayAppend(s: State, a: seq<Action>, b: seq<Action>)
    ensures Replay(s, a + b) == Replay(Replay(s, a), b)
  {
    if b == [] {
      assert a + b == a;
    } else {
      var n := |b|;
      assert (a + b)[..|a + b| - 1] == a + b[..n - 1];
      ReplayAppend(s, a, b[..n - 1]);
    }
  }

  // ---------------------------------------------------------------------
  // Death detection

  /** `enemies.reduce((acc, cur, index) => { if (cur.health <= 0) acc.push(index); ... }, [])`. */
  function DiedIndices(enemies: seq<EnemyState>): (r: seq<int>)
    ensures |r| <= |enemies|
  {
    if enemies == [] then []
    else
      var n := |enemies|;
      DiedIndices(enemies[..n - 1]) + (if enemies[n - 1].health <= 0 then [n - 1] else [])
  }

  /** Every listed position is in range and holds an enemy at health 0 or below. */
  lemma {:induction false} DiedIndicesSound(enemies: seq<EnemyState>)
    ensures forall j :: 0 <= j < |DiedIndices(enemies)| ==>
      0 <= DiedIndices(enemies)[j] < |enemies| && enemies[DiedIndices(enemies)[j]].health <= 0
  {
    if enemies != [] {
      var n := |enemies|;
      var p := enemies[..n - 1];
      DiedIndicesSound(p);
      var dp := DiedIndices(p);
      var d := DiedIndices(enemies);
      assert d == dp + (if enemies[n - 1].health <= 0 then [n - 1] else []);
      forall j | 0 <= j < |d|
        ensures 0 <= d[j] < n && enemies[d[j]].health <= 0
      {
        if j < |dp| {
          assert d[j] == dp[j];
          assert p[dp[j]] == enemies[dp[j]];
        }
      }
    }
  }

  /** The positions are listed in strictly ascending order. */
  lemma {:induction false} DiedIndicesAscending(enemies: seq<EnemyState>)
    ensures forall a, b :: 0 <= a < b < |DiedIndices(enemies)| ==>
      DiedIndices(enemies)[a] < DiedIndices(enemies)[b]
  {
    if enemies != [] {
      var n := |enemies|;
      var p := enemies[..n - 1];
      DiedIndicesAscending(p);
      DiedIndicesSound(p);
    }
  }

  /** Every enemy at health 0 or below is listed. */
  lemma {:induction false} DiedIndicesComplete(enemies: seq<EnemyState>)
    ensures forall i :: 0 <= i < |enemies| && enemies[i].health <= 0 ==> i in DiedIndices(enemies)
  {
    if enemies != [] {
      var n := |enemies|;
      var p := enemies[..n - 1];
      DiedIndicesComplete(p);
      forall i | 0 <= i < n && enemies[i].health <= 0
        ensures i in DiedIndices(enemies)
      {
        if i < n - 1 {
          assert p[i] == enemies[i];
        }
      }
    }
  }

  /** The dead list holds, in strictly ascending order, exactly the positions
      of enemies whose health is at most 0. */
  lemma DiedIndicesExact(enemies: seq<EnemyState>)
    ensures var d := DiedIndices(enemies);
      (forall j :: 0 <= j < |d| ==> 0 <= d[j] < |enemies| && enemies[d[j]].health <= 0) &&
      (forall a, b :: 0 <= a < b < |d| ==> d[a] < d[b]) &&
      (forall i :: 0 <= i < |enemies| && enemies[i].health <= 0 ==> i in d)
  {
    DiedIndicesSound(enemies);
    DiedIndicesAscending(enemies);
    DiedIndicesComplete(enemies);
  }

  /** Removing the dead leaves only living enemies, in their original order:
      the j-th survivor is the enemy at the j-th position of positive health. */
  lemma RemoveDead(enemies: seq<EnemyState>)
    ensures var alive := WithoutIndices(enemies, DiedIndices(enemies));
      var k := KeptPositions(|enemies|, DiedIndices(enemies));
      (forall j :: 0 <= j < |alive| ==> alive[j].health > 0) &&
      |alive| == |k| &&
      (forall j :: 0 <= j < |k| ==> alive[j] == enemies[k[j]]) &&
      (forall a, b :: 0 <= a < b < |k| ==> k[a] < k[b]) &&
      (forall i :: 0 <= i < |enemies| ==> (enemies[i].health > 0 <==> i in k))
  {
    var d := DiedIndices(enemies);
    DiedIndicesExact(enemies);
    KeptPositionsExact(|enemies|, d);
    WithoutIndicesOrder(enemies, d);
  }

  // ---------------------------------------------------------------------
  // Retaliation

  /** The first k survivors act, one after another, each on the state the
      previous one left; the variant of index i is read from `snapshot`. */
  function Retaliation(s: State, snapshot: seq<EnemyState>, act: ActFn, k: nat): (r: Run)
    requires k <= |snapshot|
    ensures |r.dispatched| == k
    ensures forall i :: 0 <= i < k ==> r.dispatched[i].EnemyAction?
  {
    if k == 0 then Run(s, [])
    else
      var before := Retaliation(s, snapshot, act, k - 1);
      var mutation := act(snapshot[k - 1].name, k - 1, before.state);
      Run(Reducer(before.state, EnemyAction(mutation)), before.dispatched + [EnemyAction(mutation)])
  }

  /** Index i acts exactly once, at step i, on the state left by indices 0 .. i-1. */
  lemma {:induction false} RetaliationOrder(s: State, snapshot: seq<EnemyState>, act: ActFn, k: nat)
    requires k <= |snapshot|
    ensures forall i {:trigger Retaliation(s, snapshot, act, k).dispatched[i]} :: 0 <= i < k ==>
      Retaliation(s, snapshot, act, k).dispatched[i] ==
        EnemyAction(act(snapshot[i].name, i, Retaliation(s, snapshot, act, i).state))
  {
    if k > 0 {
      RetaliationOrder(s, snapshot, act, k - 1);
      var r := Retaliation(s, snapshot, act, k);
      var p := Retaliation(s, snapshot, act, k - 1);
      assert r.dispatched == p.dispatched + [EnemyAction(act(snapshot[k - 1].name, k - 1, p.state))];
      forall i | 0 <= i < k
        ensures r.dispatched[i] == EnemyAction(act(snapshot[i].name, i, Retaliation(s, snapshot, act, i).state))
      {
        if i < k - 1 {
          assert r.dispatched[i] == p.dispatched[i];
        }
      }
    }
  }

  /** The retaliation state is what the reducer makes of its dispatched actions. */
  lemma {:induction false} RetaliationReplay(s: State, snapshot: seq<EnemyState>, act: ActFn, k: nat)
    requires k <= |snapshot|
    ensures Retaliation(s, snapshot, act, k).state == Replay(s, Retaliation(s, snapshot, act, k).dispatched)
  {
    if k > 0 {
      RetaliationReplay(s, snapshot, act, k - 1);
      var d := Retaliation(s, snapshot, act, k).dispatched;
      assert d[..|d| - 1] == Retaliation(s, snapshot, act, k - 1).dispatched;
    }
  }

  // ---------------------------------------------------------------------
  // The turn

  predicate SpellKnown(s: State)
  {
    0 <= s.currentSpell < |s.spells|
  }

  /** The mutation the current spell produces against the state after `endTurn`. */
  function CastMutation(s0: State, target: int, cast: CastFn): Mutation
    requires SpellKnown(s0)
  {
    var s1 := Reducer(s0, EndTurn);
    cast(s1.spells[s1.currentSpell].name, target, s1)
  }

  /** The state death detection looks at. */
  function AfterCast(s0: State, target: int, cast: CastFn): State
    requires SpellKnown(s0)
  {
    Reducer(Reducer(s0, EndTurn), CastSpell(CastMutation(s0, target, cast)))
  }

  /** The state once the dead are removed. */
  function AfterRemoval(s0: State, target: int, cast: CastFn): State
    requires SpellKnown(s0)
  {
    var s2 := AfterCast(s0, target, cast);
    Reducer(s2, EnemiesDied(DiedIndices(s2.enemies)))
  }

  /** `makeATurn` without its animation waits, as a function of the state it starts from. */
  function TakeTurn(s0: State, target: int, cast: CastFn, act: ActFn): (t: Turn)
    ensures |t.dispatched| >= 1 && t.dispatched[0] == EndTurn
  {
    var s1 := Reducer(s0, EndTurn);
    if !SpellKnown(s1) then Turn(SpellMissing, s1, [EndTurn])
    else
      var mutation := CastMutation(s0, target, cast);
      var s2 := AfterCast(s0, target, cast);
      var died := DiedIndices(s2.enemies);
      var s3 := AfterRemoval(s0, target, cast);
      var opening := [EndTurn, CastSpell(mutation), EnemiesDied(died)];
      if |s3.enemies| == 0 then Turn(Victory, s3, opening)
      else
        var run := Retaliation(s3, s2.enemies, act, |s3.enemies|);
        Turn(NextTurn, Reducer(run.state, StartTurn), opening + run.dispatched + [StartTurn])
  }

  /** A turn stops after one action exactly when the spell is missing, and it
      ends with `startTurn` exactly when the next turn starts. */
  lemma TurnEnds(s0: State, target: int, cast: CastFn, act: ActFn)
    ensures var t := TakeTurn(s0, target, cast, act);
      (t.end == SpellMissing <==> |t.dispatched| == 1) &&
      (t.end == NextTurn <==> t.dispatched[|t.dispatched| - 1].StartTurn?)
  {
  }

  /** `endTurn` comes first, so the spell is cast while the turn flag is off;
      the spell is the one at `currentSpell`, which `endTurn` leaves alone. */
  lemma TurnOpening(s0: State, target: int, cast: CastFn, act: ActFn)
    ensures var t := TakeTurn(s0, target, cast, act);
      |t.dispatched| >= 1 && t.dispatched[0] == EndTurn &&
      (!SpellKnown(s0) ==>
         t.end == SpellMissing && t.dispatched == [EndTurn] && t.state == s0.(playerTurn := false)) &&
      (SpellKnown(s0) ==>
         var before := s0.(playerTurn := false);
         var mutation := cast(s0.spells[s0.currentSpell].name, target, before);
         |t.dispatched| >= 3 && t.dispatched[1] == CastSpell(mutation) &&
         AfterCast(s0, target, cast) == mutation(before))
  {
  }

  /** DiedIndicesExact and RemoveDead together, with membership in the dead
      list stated as an equivalence. */
  lemma Deaths(post: seq<EnemyState>)
    ensures var died := DiedIndices(post);
      var alive := WithoutIndices(post, died);
      var k := KeptPositions(|post|, died);
      (forall a, b :: 0 <= a < b < |died| ==> died[a] < died[b]) &&
      (forall i :: 0 <= i < |post| ==> (post[i].health <= 0 <==> i in died)) &&
      (forall j :: 0 <= j < |alive| ==> alive[j].health > 0) &&
      |alive| == |k| && (forall j :: 0 <= j < |k| ==> alive[j] == post[k[j]]) &&
      (forall a, b :: 0 <= a < b < |k| ==> k[a] < k[b])
  {
    var died := DiedIndices(post);
    DiedIndicesSound(post);
    DiedIndicesAscending(post);
    DiedIndicesComplete(post);
    forall i | 0 <= i < |post| ensures post[i].health <= 0 <==> i in died {
      if i in died {
        var j :| 0 <= j < |died| && died[j] == i;
        assert post[died[j]].health <= 0;
      }
    }
    RemoveDead(post);
  }

  /** The dead are exactly the enemies at health 0 or below after the cast,
      listed in ascending order; the survivors all live and keep their order. */
  lemma TurnDeaths(s0: State, target: int, cast: CastFn, act: ActFn)
    requires SpellKnown(s0)
    ensures var t := TakeTurn(s0, target, cast, act);
      var post := AfterCast(s0, target, cast).enemies;
      var died := DiedIndices(post);
      var alive := AfterRemoval(s0, target, cast).enemies;
      var k := KeptPositions(|post|, died);
      |t.dispatched| >= 3 && t.dispatched[2] == EnemiesDied(died) &&
      (forall a, b :: 0 <= a < b < |died| ==> died[a] < died[b]) &&
      (forall i :: 0 <= i < |post| ==> (post[i].health <= 0 <==> i in died)) &&
      (forall j :: 0 <= j < |alive| ==> alive[j].health > 0) &&
      |alive| == |k| && (forall j :: 0 <= j < |k| ==> alive[j] == post[k[j]]) &&
      (forall a, b :: 0 <= a < b < |k| ==> k[a] < k[b])
  {
    var post := AfterCast(s0, target, cast).enemies;
    var t := TakeTurn(s0, target, cast, act);
    assert |t.dispatched| >= 3 && t.dispatched[2] == EnemiesDied(DiedIndices(post));
    assert AfterRemoval(s0, target, cast).enemies == WithoutIndices(post, DiedIndices(post));
    Deaths(post);
  }

  /** When nobody survives, no enemy acts and `startTurn` is never dispatched;
      the turn flag stays as the cast left it (off, unless the spell turns it on). */
  lemma TurnVictory(s0: State, target: int, cast: CastFn, act: ActFn)
    requires SpellKnown(s0)
    requires |AfterRemoval(s0, target, cast).enemies| == 0
    ensures var t := TakeTurn(s0, target, cast, act);
      t.end == Victory && |t.dispatched| == 3 &&
      (forall i :: 0 <= i < |t.dispatched| ==> !t.dispatched[i].EnemyAction? && !t.dispatched[i].StartTurn?) &&
      t.state == AfterRemoval(s0, target, cast) &&
      t.state.playerTurn == AfterCast(s0, target, cast).playerTurn
  {
  }

  /** The shape of a turn in which some enemy survives. */
  lemma TurnWithSurvivors(s0: State, target: int, cast: CastFn, act: ActFn)
    requires SpellKnown(s0)
    requires |AfterRemoval(s0, target, cast).enemies| > 0
    ensures var t := TakeTurn(s0, target, cast, act);
      var post := AfterCast(s0, target, cast).enemies;
      var s3 := AfterRemoval(s0, target, cast);
      var run := Retaliation(s3, post, act, |s3.enemies|);
      t.end == NextTurn &&
      t.dispatched == [EndTurn, CastSpell(CastMutation(s0, target, cast)), EnemiesDied(DiedIndices(post))] +
                      run.dispatched + [StartTurn] &&
      t.state == Reducer(run.state, StartTurn)
  {
  }

  /** Otherwise the n survivors' actions follow the removal (each index acting
      once, in order, as RetaliationOrder states, with the variants named by
      the pre-removal list), and `startTurn` comes exactly once, last. */
  lemma TurnRetaliation(s0: State, target: int, cast: CastFn, act: ActFn)
    requires SpellKnown(s0)
    requires |AfterRemoval(s0, target, cast).enemies| > 0
    ensures var t := TakeTurn(s0, target, cast, act);
      var post := AfterCast(s0, target, cast).enemies;
      var s3 := AfterRemoval(s0, target, cast);
      var n := |s3.enemies|;
      n <= |post| &&
      t.end == NextTurn && |t.dispatched| == n + 4 &&
      t.dispatched[3..n + 3] == Retaliation(s3, post, act, n).dispatched &&
      t.dispatched[n + 3] == StartTurn &&
      (forall j :: 0 <= j < n + 3 ==> !t.dispatched[j].StartTurn?) &&
      t.state.playerTurn
  {
    var t := TakeTurn(s0, target, cast, act);
    var post := AfterCast(s0, target, cast).enemies;
    var s3 := AfterRemoval(s0, target, cast);
    var n := |s3.enemies|;
    var run := Retaliation(s3, post, act, n);
    TurnWithSurvivors(s0, target, cast, act);
    var d := t.dispatched;
    assert |d| == n + 4;
    assert d[3..n + 3] == run.dispatched;
    forall j | 0 <= j < n + 3
      ensures !d[j].StartTurn?
    {
      if j >= 3 {
        assert d[j] == run.dispatched[j - 3];
      }
    }
  }

  /** Every turn's final state is what the reducer makes of the actions it dispatched. */
  lemma TurnReplay(s0: State, target: int, cast: CastFn, act: ActFn)
    ensures var t := TakeTurn(s0, target, cast, act);
      t.state == Replay(s0, t.dispatched)
  {
    var t := TakeTurn(s0, target, cast, act);
    var s1 := Reducer(s0, EndTurn);
    assert Replay(s0, [EndTurn]) == s1 by {
      assert [EndTurn][..0] == [];
    }
    if SpellKnown(s1) {
      var mutation := CastMutation(s0, target, cast);
      var died := DiedIndices(AfterCast(s0, target, cast).enemies);
      var opening := [EndTurn, CastSpell(mutation), EnemiesDied(died)];
      assert opening[..2] == [EndTurn, CastSpell(mutation)];
      assert [EndTurn, CastSpell(mutation)][..1] == [EndTurn];
      assert Replay(s0, opening) == AfterRemoval(s0, target, cast);
      var s3 := AfterRemoval(s0, target, cast);
      if |s3.enemies| > 0 {
        var run := Retaliation(s3, AfterCast(s0, target, cast).enemies, act, |s3.enemies|);
        RetaliationReplay(s3, AfterCast(s0, target, cast).enemies, act, |s3.enemies|);
        ReplayAppend(s0, opening, run.dispatched);
        ReplayAppend(s0, opening + run.dispatched, [StartTurn]);
        assert Replay(run.state, [StartTurn]) == Reducer(run.state, StartTurn) by {
          assert [StartTurn][..0] == [];
        }
      }
    }
  }

  /** The variant that acts for survivor i is named by position i of the list
      before removal: when the first of two enemies dies, the survivor, now at
      index 0, acts as the dead enemy's variant. */
  lemma StaleVariantName(s0: State, target: int, cast: CastFn, act: ActFn, dead: EnemyState, survivor: EnemyState)
    requires SpellKnown(s0)
    requires dead.health <= 0 < survivor.health
    requires AfterCast(s0, target, cast).enemies == [dead, survivor]
    ensures var t := TakeTurn(s0, target, cast, act);
      var s3 := AfterRemoval(s0, target, cast);
      s3.enemies == [survivor] &&
      t.dispatched == [EndTurn, CastSpell(CastMutation(s0, target, cast)), EnemiesDied([0]),
                       EnemyAction(act(dead.name, 0, s3)), StartTurn]
  {
    var post := AfterCast(s0, target, cast).enemies;
    assert post[..1] == [dead];
    assert post[..1][..0] == [];
    assert DiedIndices(post) == [0];
    assert [dead][..0] == [];
    assert WithoutIndices(post, [0]) == [survivor];
    var s3 := AfterRemoval(s0, target, cast);
    assert s3.enemies == [survivor];
    var run := Retaliation(s3, post, act, 1);
    assert Retaliation(s3, post, act, 0) == Run(s3, []);
    assert run.dispatched == [EnemyAction(act(dead.name, 0, s3))];
  }

  /** Two enemies of health 10; a starting Fireball in a slot of power 1 hits
      index 0, which dies and is removed; the one survivor retaliates once and
      the next turn starts. */
  lemma FireballKillScenario(s0: State, cast: CastFn, act: ActFn)
    requires s0.enemies == [EnemyState("imp", 10, []), EnemyState("ogre", 10, [])]
    requires SpellKnown(s0) && s0.spells[s0.currentSpell].power == Fireball.StartingPower
    requires 0 <= s0.currentSlot < |s0.spellSlots|
    requires s0.spellSlots[s0.currentSlot] == SpellSlotState(1, 1)
    requires Fireball.GetAction([0], s0.(playerTurn := false)) == Ok(AfterCast(s0, 0, cast))
    ensures var t := TakeTurn(s0, 0, cast, act);
      var s3 := AfterRemoval(s0, 0, cast);
      AfterCast(s0, 0, cast).enemies == [EnemyState("imp", 0, []), EnemyState("ogre", 10, [])] &&
      s3.enemies == [EnemyState("ogre", 10, [])] &&
      t.end == NextTurn && t.state.playerTurn &&
      t.dispatched == [EndTurn, CastSpell(CastMutation(s0, 0, cast)), EnemiesDied([0]),
                       EnemyAction(act("imp", 0, s3)), StartTurn]
  {
    var before := s0.(playerTurn := false);
    Fireball.StartingDamage([0], before);
    var post := AfterCast(s0, 0, cast).enemies;
    assert post == [EnemyState("imp", 0, []), EnemyState("ogre", 10, [])];
    StaleVariantName(s0, 0, cast, act, post[0], post[1]);
    TurnWithSurvivors(s0, 0, cast, act);
  }

  // ---------------------------------------------------------------------
  // The store and the turn procedure

  /** The thunk-enabled store: the current state, and (for the proof) every
      action dispatched to it since it was created. */
  class Store {
    var state: State
    ghost var log: seq<Action>

    constructor (s: State)
      ensures state == s && log == []
    {
      state := s;
      log := [];
    }

    /** `dispatch(action)`: the reducer's result replaces the state. */
    method Dispatch(action: Action)
        modifies this
      ensures state == Reducer(old(state), action) && log == old(log) + [action]
    {
      state := Reducer(state, action);
      log := log + [action];
    }
  }

  /** The retaliation loop of `makeATurn`: for each index below `count`, the
      variant named at that index of `enemies` acts on the current state. */
  method Retaliate(store: Store, enemies: seq<EnemyState>, count: nat, act: ActFn)
    requires count <= |enemies|
    modifies store
    ensures var run := Retaliation(old(store.state), enemies, act, count);
      store.state == run.state && store.log == old(store.log) + run.dispatched
  {
    ghost var start := store.state;
    for i := 0 to count
      invariant store.state == Retaliation(start, enemies, act, i).state
      invariant store.log == old(store.log) + Retaliation(start, enemies, act, i).dispatched
    {
      var name := enemies[i].name;
      var m := act(name, i, store.state);
      store.Dispatch(EnemyAction(m));
    }
  }

  /** The cast and the removal of the dead: the current spell's mutation is
      dispatched, the enemies are re-read, and the dead among them removed.
      `s0` is the state before `endTurn`. */
  method CastAndRemoveDead(ghost s0: State, originalTarget: int, store: Store, cast: CastFn)
    returns (enemies: seq<EnemyState>)
    requires SpellKnown(s0) && store.state == Reducer(s0, EndTurn)
    modifies store
    ensures enemies == AfterCast(s0, originalTarget, cast).enemies
    ensures store.state == AfterRemoval(s0, originalTarget, cast)
    ensures store.log == old(store.log) +
      [CastSpell(CastMutation(s0, originalTarget, cast)), EnemiesDied(DiedIndices(enemies))]
  {
    var currentSpell, spells := store.state.currentSpell, store.state.spells;
    var mutation := cast(spells[currentSpell].name, originalTarget, store.state);
    store.Dispatch(CastSpell(mutation));
    enemies := store.state.enemies;
    var diedEnemies := DiedIndices(enemies);
    store.Dispatch(EnemiesDied(diedEnemies));
  }

  /** The actions of a turn after `endTurn`, once the current spell is known. */
  lemma TurnTail(s0: State, target: int, cast: CastFn, act: ActFn)
    requires SpellKnown(s0)
    ensures var t := TakeTurn(s0, target, cast, act);
      var post := AfterCast(s0, target, cast).enemies;
      var s3 := AfterRemoval(s0, target, cast);
      var removal := [CastSpell(CastMutation(s0, target, cast)), EnemiesDied(DiedIndices(post))];
      if |s3.enemies| == 0 then
        t.end == Victory && t.state == s3 && t.dispatched == [EndTurn] + removal
      else
        var run := Retaliation(s3, post, act, |s3.enemies|);
        t.end == NextTurn && t.state == Reducer(run.state, StartTurn) &&
        t.dispatched == [EndTurn] + removal + run.dispatched + [StartTurn]
  {
  }

  /** What `makeATurn` does after `endTurn` once the current spell is known:
      the cast, the removal of the dead, and either victory or the enemies'
      retaliation followed by `startTurn`. `s0` is the state before `endTurn`. */
  method Resolve(ghost s0: State, originalTarget: int, store: Store, cast: CastFn, act: ActFn)
    returns (end: TurnEnd)
    requires SpellKnown(s0) && store.state == Reducer(s0, EndTurn)
    modifies store
    ensures var post := AfterCast(s0, originalTarget, cast).enemies;
      var s3 := AfterRemoval(s0, originalTarget, cast);
      var removal := [CastSpell(CastMutation(s0, originalTarget, cast)), EnemiesDied(DiedIndices(post))];
      if |s3.enemies| == 0 then
        end == Victory && store.state == s3 && store.log == old(store.log) + removal
      else
        var run := Retaliation(s3, post, act, |s3.enemies|);
        end == NextTurn && store.state == Reducer(run.state, StartTurn) &&
        store.log == old(store.log) + removal + run.dispatched + [StartTurn]
  {
    var enemies := CastAndRemoveDead(s0, originalTarget, store, cast);
    var aliveEnemies := store.state.enemies;
    if |aliveEnemies| > 0 {
      Retaliate(store, enemies, |aliveEnemies|, act);
      store.Dispatch(StartTurn);
      end := NextTurn;
    } else {
      end := Victory;
    }
  }

  /** `makeATurn(originalTarget, dispatch)` with the animation waits removed:
      each step re-reads the store before the next dispatch. */
  method MakeATurn(originalTarget: int, store: Store, cast: CastFn, act: ActFn) returns (end: TurnEnd)
    modifies store
    ensures var t := TakeTurn(old(store.state), originalTarget, cast, act);
      end == t.end && store.state == t.state && store.log == old(store.log) + t.dispatched
  {
    ghost var s0, log0 := store.state, store.log;
    store.Dispatch(EndTurn);
    if !(0 <= store.state.currentSpell < |store.state.spells|) {
      // reading `spells[currentSpell].name` throws: nothing more is dispatched
      assert TakeTurn(s0, originalTarget, cast, act) == Turn(SpellMissing, store.state, [EndTurn]);
      return SpellMissing;
    }
    end := Resolve(s0, originalTarget, store, cast, act);
    TurnTail(s0, originalTarget, cast, act);
  }
}
