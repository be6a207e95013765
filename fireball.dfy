/** Fireball: direct, single-target damage of the slot-adjusted spell power. */
module Fireball {
  import opened Wrappers
  import opened Resources
  import opened Context

  /** The base power a Fireball starts with. */
  const StartingPower := 10

  /** `Fireball.getAction`: the current spell's power times the current slot's
      multiplier, rounded up, is taken off the health of enemy `targets[0]`.
      Any lookup that lands outside its list fails, as the source's read of
      a field of `undefined` throws. */
  function GetAction(targets: seq<int>, s: State): (r: Result<State, CastError>)
    ensures r.Ok? <==>
      0 <= s.currentSpell < |s.spells| && 0 <= s.currentSlot < |s.spellSlots| &&
      |targets| > 0 && 0 <= targets[0] < |s.enemies|
    ensures !(0 <= s.currentSpell < |s.spells|) ==> r == Err(MissingSpell)
    ensures 0 <= s.currentSpell < |s.spells| && !(0 <= s.currentSlot < |s.spellSlots|) ==>
              r == Err(MissingSlot)
    ensures r.Ok? ==>
      var t := targets[0];
      var d := TotalPower(s.spells[s.currentSpell].power, s.spellSlots[s.currentSlot]);
      |r.value.enemies| == |s.enemies| &&
      r.value.enemies[t].health == s.enemies[t].health - d &&
      r.value.enemies[t].name == s.enemies[t].name &&
      r.value.enemies[t].afflictions == s.enemies[t].afflictions &&
      (forall i :: 0 <= i < |s.enemies| && i != t ==> r.value.enemies[i] == s.enemies[i]) &&
      r.value.(enemies := s.enemies) == s
  {
    if !(0 <= s.currentSpell < |s.spells|) then Err(MissingSpell)
    else if !(0 <= s.currentSlot < |s.spellSlots|) then Err(MissingSlot)
    else
      var totalPower := TotalPower(s.spells[s.currentSpell].power, s.spellSlots[s.currentSlot]);
      if |targets| == 0 || !(0 <= targets[0] < |s.enemies|) then Err(MissingTarget)
      else
        var t := targets[0];
        var e := s.enemies[t];
        Ok(s.(enemies := s.enemies[t := e.(health := e.health - totalPower)]))
  }

  /** The damage dealt is the ceiling of power * slotPower: at least that
      product and less than one above it. */
  lemma DamageBounds(targets: seq<int>, s: State)
    requires GetAction(targets, s).Ok?
    ensures var t := targets[0];
      var d := s.enemies[t].health - GetAction(targets, s).value.enemies[t].health;
      var slot := s.spellSlots[s.currentSlot];
      var p := s.spells[s.currentSpell].power;
      (d - 1) * slot.den < p * slot.num <= d * slot.den
  {
  }

  /** A starting Fireball (power 10) in a slot of power 1 deals 10; in a slot
      of power 1.5 it deals ceil(15) = 15. */
  lemma StartingDamage(targets: seq<int>, s: State)
    requires GetAction(targets, s).Ok?
    requires s.spells[s.currentSpell].power == StartingPower
    ensures var t := targets[0];
      var d := s.enemies[t].health - GetAction(targets, s).value.enemies[t].health;
      (s.spellSlots[s.currentSlot] == SpellSlotState(1, 1) ==> d == 10) &&
      (s.spellSlots[s.currentSlot] == SpellSlotState(3, 2) ==> d == 15)
  {
    var t := targets[0];
    var d := s.enemies[t].health - GetAction(targets, s).value.enemies[t].health;
    var slot := s.spellSlots[s.currentSlot];
    if slot == SpellSlotState(3, 2) {
      assert (d - 1) * 2 < 30 <= d * 2;
    }
  }
}
