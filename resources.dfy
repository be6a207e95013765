/** The entity records the combat state is built from: enemies with their
    afflictions, spells and spell slots, and the slot-adjusted spell power. */
module Resources {

  /** The kind of a status effect. Only the curse is used by the spells modelled here. */
  datatype AfflictionType = Curse | OtherAffliction(tag: string)

  /** A status effect attached to an enemy, with its stack count. */
  datatype Affliction = Affliction(kind: AfflictionType, stacks: int)

  /** One enemy of the encounter. Health may go negative before the enemy is removed. */
  datatype EnemyState = EnemyState(name: string, health: int, afflictions: seq<Affliction>)

  /** A spell the player knows: its variant name and base power. */
  datatype SpellState = SpellState(name: string, power: int)

  type Denominator = d: int | d > 0 witness 1

  /** A spell slot; its power multiplier is the rational number num / den. */
  datatype SpellSlotState = SpellSlotState(num: int, den: Denominator)

  /** Why a spell effect could not be computed: the lookup it performs found
      nothing, which in the source is a TypeError thrown on `undefined`. */
  datatype CastError = MissingSpell | MissingSlot | MissingTarget | SpellNotFound

  /** `Math.ceil(power * slotPower)`: the least integer not below power * num / den. */
  function TotalPower(power: int, slot: SpellSlotState): (d: int)
    ensures (d - 1) * slot.den < power * slot.num <= d * slot.den
  {
    var a := power * slot.num;
    var q := (-a) / slot.den;
    assert -a == q * slot.den + (-a) % slot.den;
    assert (-q) * slot.den == -(q * slot.den);
    -q
  }
}
