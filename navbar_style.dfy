/**
  The navbar's shadow as a function of the vertical scroll offset: elevated
  beyond 100 pixels, the base shadow otherwise. The scroll handler sets one of
  the two on every event; the check made once at load only ever elevates.
 */
module NavbarStyle {

  /** The navbar's shadow: the stylesheet's own (no inline style yet), the base one or the elevated one. */
  datatype Shadow = Stylesheet | Base | Elevated

  /** The shadow the scroll handler sets for the offset `offset`. */
  function OnScroll(offset: real): (s: Shadow)
    ensures s == Elevated <==> offset > 100.0
    ensures s == Base <==> offset <= 100.0
  {
    if offset > 100.0 then Elevated else Base
  }

  /** The shadow after the check made once at load, starting from `current`. */
  function OnLoad(offset: real, current: Shadow): (s: Shadow)
    ensures offset > 100.0 ==> s == Elevated && s == OnScroll(offset)
    ensures offset <= 100.0 ==> s == current
    ensures s != current ==> s == Elevated
  {
    if offset > 100.0 then Elevated else current
  }
}
