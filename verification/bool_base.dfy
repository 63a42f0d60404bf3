/**
 * The tri-state boolean override read from configuration
 * (AmorLib/Utils/JsonElementConverters/BoolBase.cs): a mode that forces a
 * setting true, forces it false, or leaves the game's own value unchanged.
 */
module BoolBases {
  datatype BoolMode = False | True | Unchanged

  datatype BoolBase = BoolBase(mode: BoolMode) {
    /** The shared instances for the three modes. */
    static const False: BoolBase := BoolBase(BoolMode.False)
    static const True: BoolBase := BoolBase(BoolMode.True)
    static const Unchanged: BoolBase := BoolBase(BoolMode.Unchanged)

    /** The value of the setting: the forced value, or `originalValue` when unchanged. */
    function GetValue(originalValue: bool): (r: bool)
      ensures mode == BoolMode.Unchanged ==> r == originalValue
      ensures mode != BoolMode.Unchanged ==> r == (mode == BoolMode.True)
    {
      match mode
      case True => true
      case False => false
      case Unchanged => originalValue
    }
  }

  /** The override built from a plain boolean forces that boolean. */
  function FromBool(mode: bool): (r: BoolBase)
    ensures r.mode != BoolMode.Unchanged
    ensures r.mode == BoolMode.True <==> mode
  {
    BoolBase(if mode then BoolMode.True else BoolMode.False)
  }

  /** A forcing mode gives its own value whatever the input; the unchanged mode gives the input back. */
  lemma GetValueModes(b: BoolBase, x: bool)
    ensures b.mode == BoolMode.True ==> b.GetValue(x)
    ensures b.mode == BoolMode.False ==> !b.GetValue(x)
    ensures b.mode == BoolMode.Unchanged ==> b.GetValue(x) == x
  {
  }

  /** Only the unchanged mode passes the input through: every other mode ignores it. */
  lemma PassesThroughIff(b: BoolBase)
    ensures (forall x: bool :: b.GetValue(x) == x) <==> b.mode == BoolMode.Unchanged
    ensures b.mode != BoolMode.Unchanged ==> b.GetValue(true) == b.GetValue(false)
  {
    if b.mode != BoolMode.Unchanged {
      assert b.GetValue(true) == b.GetValue(false);
    }
  }

  /** An override built from `v` yields `v`, whatever the setting was. */
  lemma FromBoolForces(v: bool, x: bool)
    ensures FromBool(v).GetValue(x) == v
    ensures FromBool(v) == (if v then BoolBase.True else BoolBase.False)
  {
  }

  /** Applying an override twice is applying it once. */
  lemma GetValueIdempotent(b: BoolBase, x: bool)
    ensures b.GetValue(b.GetValue(x)) == b.GetValue(x)
  {
  }

  /** The shared instances carry their matching modes. */
  lemma StaticInstances(x: bool)
    ensures BoolBase.True.GetValue(x) && !BoolBase.False.GetValue(x) && BoolBase.Unchanged.GetValue(x) == x
    ensures BoolBase.True == FromBool(true) && BoolBase.False == FromBool(false)
  {
  }
}
