/** Shadow Bolt: add one curse stack to the target, then deal the
    slot-adjusted power times the total number of stacks. */
module ShadowBolt {
  import opened Wrappers
  import opened Resources
  import opened Context

  /** The base power a Shadow Bolt starts with. */
  const StartingPower := 6

  /** `afflictions.find(a => a.type === 'curse')`, as a position. */
  function FirstCurse(afflictions: seq<Affliction>): (r: Option<nat>)
    ensures r.Some? ==>
      r.value < |afflictions| && afflictions[r.value].kind == Curse &&
      forall i :: 0 <= i < r.value ==> afflictions[i].kind != Curse
    ensures r.None? ==> forall i :: 0 <= i < |afflictions| ==> afflictions[i].kind != Curse
  {
    if afflictions == [] then None
    else if afflictions[0].kind == Curse then Some(0)
    else match FirstCurse(afflictions[1..])
      case None => None
      case Some(j) => Some(j + 1)
  }

  /** The stacks of the curse the spell finds, or 0 when there is none. */
  function CurseStacks(afflictions: seq<Affliction>): int
  {
    match FirstCurse(afflictions)
    case None => 0
    case Some(j) => afflictions[j].stacks
  }

  /** The draft recipe applied to the target: bump the found curse (or append
      a fresh one with one stack), then deal totalPower per stack. */
  function Hit(e: EnemyState, totalPower: int): (r: EnemyState)
    ensures r.name == e.name
    ensures CurseStacks(r.afflictions) == CurseStacks(e.afflictions) + 1
    ensures r.health == e.health - totalPower * CurseStacks(r.afflictions)
    ensures match FirstCurse(e.afflictions)
      case Some(j) =>
        |r.afflictions| == |e.afflictions| &&
        r.afflictions[j] == Affliction(Curse, e.afflictions[j].stacks + 1) &&
        (forall i :: 0 <= i < |e.afflictions| && i != j ==> r.afflictions[i] == e.afflictions[i])
      case None =>
        r.afflictions == e.afflictions + [Affliction(Curse, 1)]
  {
    match FirstCurse(e.afflictions)
    case Some(j) =>
      var stacks := e.afflictions[j].stacks + 1;
      var afflictions := e.afflictions[j := e.afflictions[j].(stacks := stacks)];
      FirstCurseUpdate(e.afflictions, j, afflictions[j]);
      e.(afflictions := afflictions, health := e.health - totalPower * stacks)
    case None =>
      var afflictions := e.afflictions + [Affliction(Curse, 1)];
      FirstCurseAppend(e.afflictions, Affliction(Curse, 1));
      e.(afflictions := afflictions, health := e.health - totalPower * 1)
  }

  /** `ShadowBolt.getAction` with the spell's base power given: the slot-adjusted
      power is fixed before the draft is touched, and only the target changes. */
  function GetAction(power: int, target: int, s: State): (r: Result<State, CastError>)
    ensures r.Ok? <==> 0 <= s.currentSlot < |s.spellSlots| && 0 <= target < |s.enemies|
    ensures !(0 <= s.currentSlot < |s.spellSlots|) ==> r == Err(MissingSlot)
    ensures r.Ok? ==>
      |r.value.enemies| == |s.enemies| &&
      r.value.enemies[target] ==
        Hit(s.enemies[target], TotalPower(power, s.spellSlots[s.currentSlot])) &&
      (forall i :: 0 <= i < |s.enemies| && i != target ==> r.value.enemies[i] == s.enemies[i]) &&
      r.value.(enemies := s.enemies) == s
  {
    if !(0 <= s.currentSlot < |s.spellSlots|) then Err(MissingSlot)
    else
      var totalPower := TotalPower(power, s.spellSlots[s.currentSlot]);
      if !(0 <= target < |s.enemies|) then Err(MissingTarget)
      else Ok(s.(enemies := s.enemies[target := Hit(s.enemies[target], totalPower)]))
  }

  // ---------------------------------------------------------------------
  // Finding the curse after an update or an append

  lemma {:induction false} FirstCurseUpdate(a: seq<Affliction>, j: nat, x: Affliction)
    requires FirstCurse(a) == Some(j) && x.kind == Curse
    ensures FirstCurse(a[j := x]) == Some(j)
  {
    if j > 0 {
      assert a[j := x][1..] == a[1..][j - 1 := x];
      FirstCurseUpdate(a[1..], j - 1, x);
    }
  }

  lemma {:induction false} FirstCurseAppend(a: seq<Affliction>, x: Affliction)
    requires FirstCurse(a) == None
    ensures FirstCurse(a + [x]) == if x.kind == Curse then Some(|a|) else None
  {
    if a != [] {
      assert (a + [x])[1..] == a[1..] + [x];
      FirstCurseAppend(a[1..], x);
    }
  }

  // ---------------------------------------------------------------------
  // At most one curse per enemy

  /** The number of curse afflictions in the list. */
  function CurseCount(a: seq<Affliction>): nat
  {
    if a == [] then 0 else (if a[0].kind == Curse then 1 else 0) + CurseCount(a[1..])
  }

  lemma {:induction false} CurseCountAppend(a: seq<Affliction>, x: Affliction)
    ensures CurseCount(a + [x]) == CurseCount(a) + (if x.kind == Curse then 1 else 0)
  {
    if a != [] {
      assert (a + [x])[1..] == a[1..] + [x];
      CurseCountAppend(a[1..], x);
    }
  }

  lemma {:induction false} CurseCountUpdate(a: seq<Affliction>, j: nat, x: Affliction)
    requires j < |a| && a[j].kind == x.kind
    ensures CurseCount(a[j := x]) == CurseCount(a)
  {
    if j > 0 {
      assert a[j := x][1..] == a[1..][j - 1 := x];
      CurseCountUpdate(a[1..], j - 1, x);
    }
  }

  lemma {:induction false} CurseCountNone(a: seq<Affliction>)
    requires forall i :: 0 <= i < |a| ==> a[i].kind != Curse
    ensures CurseCount(a) == 0
  {
    if a != [] {
      CurseCountNone(a[1..]);
    }
  }

  lemma {:induction false} CurseCountSome(a: seq<Affliction>, j: nat)
    requires j < |a| && a[j].kind == Curse
    ensures CurseCount(a) >= 1
  {
    if j > 0 {
      CurseCountSome(a[1..], j - 1);
    }
  }

  /** Stacking never duplicates the curse: an enemy with at most one curse
      has exactly one after being hit. */
  lemma {:induction false} HitKeepsOneCurse(e: EnemyState, totalPower: int)
    requires CurseCount(e.afflictions) <= 1
    ensures CurseCount(Hit(e, totalPower).afflictions) == 1
  {
    var r := Hit(e, totalPower);
    match FirstCurse(e.afflictions)
    case Some(j) =>
      assert r.afflictions == e.afflictions[j := r.afflictions[j]];
      CurseCountUpdate(e.afflictions, j, r.afflictions[j]);
      CurseCountSome(e.afflictions, j);
    case None =>
      CurseCountNone(e.afflictions);
      CurseCountAppend(e.afflictions, Affliction(Curse, 1));
  }

  // ---------------------------------------------------------------------
  // Repeated casts

  /** The enemy after n hits with the same slot-adjusted power. */
  function Hits(e: EnemyState, totalPower: int, n: nat): EnemyState
  {
    if n == 0 then e else Hit(Hits(e, totalPower, n - 1), totalPower)
  }

  /** 1 + 2 + ... + n. */
  function Triangle(n: nat): nat
  {
    if n == 0 then 0 else Triangle(n - 1) + n
  }

  lemma {:induction false} TriangleClosedForm(n: nat)
    ensures Triangle(n) == n * (n + 1) / 2
  {
    if n > 0 {
      TriangleClosedForm(n - 1);
      assert (n - 1) * n + 2 * n == n * (n + 1);
    }
  }

  /** A hit on an enemy whose only curse is the last affliction, with k stacks. */
  lemma HitLastCurse(b: EnemyState, totalPower: int, a: seq<Affliction>, k: int)
    requires FirstCurse(a) == None && b.afflictions == a + [Affliction(Curse, k)]
    ensures Hit(b, totalPower).afflictions == a + [Affliction(Curse, k + 1)]
    ensures Hit(b, totalPower).health == b.health - totalPower * (k + 1)
  {
    FirstCurseAppend(a, Affliction(Curse, k));
    assert b.afflictions[|a| := Affliction(Curse, k + 1)] == a + [Affliction(Curse, k + 1)];
  }

  lemma TriangleStep(totalPower: int, n: nat)
    requires n > 0
    ensures totalPower * Triangle(n) == totalPower * Triangle(n - 1) + totalPower * n
  {
  }

  /** On an enemy without a curse, n hits leave one curse of n stacks at the
      end of its afflictions and take totalPower * (1 + 2 + ... + n) health. */
  lemma {:induction false} RepeatedHits(e: EnemyState, totalPower: int, n: nat)
    requires FirstCurse(e.afflictions) == None
    ensures Hits(e, totalPower, n).name == e.name
    ensures Hits(e, totalPower, n).health == e.health - totalPower * Triangle(n)
    ensures Hits(e, totalPower, n).afflictions ==
      if n == 0 then e.afflictions else e.afflictions + [Affliction(Curse, n)]
  {
    if n > 0 {
      RepeatedHits(e, totalPower, n - 1);
      var before := Hits(e, totalPower, n - 1);
      if n > 1 {
        HitLastCurse(before, totalPower, e.afflictions, n - 1);
      }
      TriangleStep(totalPower, n);
    }
  }

  /** The n-th of those hits deals n * totalPower, and all n together deal
      totalPower * n * (n + 1) / 2. */
  lemma NthHitDamage(e: EnemyState, totalPower: int, n: nat)
    requires FirstCurse(e.afflictions) == None && n >= 1
    ensures Hits(e, totalPower, n - 1).health - Hits(e, totalPower, n).health == n * totalPower
    ensures e.health - Hits(e, totalPower, n).health == totalPower * (n * (n + 1) / 2)
  {
    RepeatedHits(e, totalPower, n - 1);
    RepeatedHits(e, totalPower, n);
    TriangleClosedForm(n);
    TriangleStep(totalPower, n);
  }

  /** Two starting Shadow Bolts in a slot of power 1 on an uncursed enemy:
      the first deals 6 with one stack, the second 12 with two. */
  lemma TwoStartingCasts(target: int, s: State)
    requires 0 <= s.currentSlot < |s.spellSlots| && 0 <= target < |s.enemies|
    requires s.spellSlots[s.currentSlot] == SpellSlotState(1, 1)
    requires FirstCurse(s.enemies[target].afflictions) == None
    ensures GetAction(StartingPower, target, s).Ok?
    ensures var first := GetAction(StartingPower, target, s).value;
      GetAction(StartingPower, target, first).Ok? &&
      var second := GetAction(StartingPower, target, first).value;
      first.enemies[target].health == s.enemies[target].health - 6 &&
      CurseStacks(first.enemies[target].afflictions) == 1 &&
      second.enemies[target].health == first.enemies[target].health - 12 &&
      CurseStacks(second.enemies[target].afflictions) == 2
  {
    assert TotalPower(StartingPower, SpellSlotState(1, 1)) == 6;
  }

  // ---------------------------------------------------------------------
  // The spell lookup as written

  /** A JavaScript value as far as `===` needs it. */
  datatype JsValue = JsString(str: string) | JsNumber(num: int)

  /** `===`: equal only when both the type and the value agree. */
  function StrictEquals(a: JsValue, b: JsValue): (r: bool)
    ensures r ==> (a.JsString? <==> b.JsString?)
  {
    a == b
  }

  /** `spells.find(matches)`: the first spell the predicate accepts. */
  function Find(spells: seq<SpellState>, matches: SpellState -> bool): (r: Option<SpellState>)
    ensures r.Some? ==> r.value in spells && matches(r.value)
    ensures r.Some? ==> exists i :: 0 <= i < |spells| && spells[i] == r.value &&
                          forall j :: 0 <= j < i ==> !matches(spells[j])
    ensures r.None? ==> forall sp :: sp in spells ==> !matches(sp)
  {
    if spells == [] then None
    else if matches(spells[0]) then Some(spells[0])
    else
      var r := Find(spells[1..], matches);
      if r.Some? then
        var i :| 0 <= i < |spells[1..]| && spells[1..][i] == r.value &&
                 forall j :: 0 <= j < i ==> !matches(spells[1..][j]);
        assert spells[i + 1] == r.value && forall j :: 0 <= j < i + 1 ==> !matches(spells[j]);
        r
      else r
  }

  /** The lookup as written: `spells.find(s => s.name === currentSpell)`
      compares a spell name with the numeric index of the current spell. */
  function FindSpellAsWritten(spells: seq<SpellState>, currentSpell: int): (r: Option<SpellState>)
    ensures r == None
  {
    Find(spells, (sp: SpellState) => StrictEquals(JsString(sp.name), JsNumber(currentSpell)))
  }

  /** `ShadowBolt.getAction` as written: the power comes from the lookup above,
      and destructuring its `undefined` result throws. */
  function GetActionAsWritten(target: int, s: State): (r: Result<State, CastError>)
    ensures r.Ok? ==> exists p :: r == GetAction(p, target, s)
  {
    match FindSpellAsWritten(s.spells, s.currentSpell)
    case None => Err(SpellNotFound)
    case Some(spell) => GetAction(spell.power, target, s)
  }

  /** The lookup never matches, so Shadow Bolt as written fails on every state. */
  lemma AsWrittenAlwaysFails(target: int, s: State)
    ensures FindSpellAsWritten(s.spells, s.currentSpell) == None
    ensures GetActionAsWritten(target, s) == Err(SpellNotFound)
  {
  }
}
