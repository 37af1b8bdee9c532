/** Character sprite layouts: how many eye, hair and body variants a sheet has, which one
    a character uses, and where the body's frames start on the sheet. */
module Characters {
  datatype CharacterLayout = CharacterLayout(
    eyeCount: nat, bodyCount: nat, hairCount: nat,
    eyeVariant: nat, bodyVariant: nat, hairVariant: nat)

  /** Every variant is one of the sheet's variants. */
  predicate WellFormed(l: CharacterLayout)
  {
    l.eyeVariant < l.eyeCount && l.bodyVariant < l.bodyCount && l.hairVariant < l.hairCount
  }

  /** `CharacterLayout::gen`: the counts are kept and each variant is a uniform draw below its
      count. The draws are the random number generator's results, taken as parameters with
      its range contract; an empty range makes it panic, so the counts must be positive. */
  function Gen(eyeCount: nat, hairCount: nat, bodyCount: nat, eyeDraw: nat, hairDraw: nat, bodyDraw: nat)
    : (r: CharacterLayout)
    requires eyeCount > 0 && hairCount > 0 && bodyCount > 0
    requires eyeDraw < eyeCount && hairDraw < hairCount && bodyDraw < bodyCount
    ensures WellFormed(r)
    ensures r.eyeCount == eyeCount && r.hairCount == hairCount && r.bodyCount == bodyCount
    ensures r.eyeVariant == eyeDraw && r.hairVariant == hairDraw && r.bodyVariant == bodyDraw
  {
    CharacterLayout(eyeCount, bodyCount, hairCount, eyeDraw, bodyDraw, hairDraw)
  }

  /** The middle frame of the body variant's three-frame strip. */
  function GetAnimationIndex(l: CharacterLayout): (i: nat)
    ensures i % 3 == 1
    ensures i / 3 == l.bodyVariant
    ensures WellFormed(l) ==> i < 3 * l.bodyCount
  {
    l.bodyVariant * 3 + 1
  }

  const BODY_COUNT: nat := 5
  const BODY_COLUMNS: nat := 15

  /** With the generator's five bodies the index is at most 13, inside the first row of
      the 15-column body sheet. */
  lemma BodyIndexInFirstRow(l: CharacterLayout)
    requires WellFormed(l) && l.bodyCount == BODY_COUNT
    ensures GetAnimationIndex(l) <= 13 < BODY_COLUMNS
  {
  }
}
