/**
 * Arrow colours (globe.js `recomputeArrowColors`): every scene child whose material has a
 * `uColor` uniform is painted with the highlight colour if it carries the highlighted name and
 * with the plain arrow colour otherwise.
 */
module Appearance {
  import opened ArrowRecords

  datatype Rgb = Rgb(r: real, g: real, b: real)

  /** The initial `arrow_color` and `arrow_highlight_color`. */
  const DEFAULT_ARROW_COLOR: Rgb := Rgb(1.0, 1.0, 1.0)
  const DEFAULT_HIGHLIGHT_COLOR: Rgb := Rgb(1.0, 1.0, 0.1)

  /** A child of the scene: its name and the value of its `uColor` uniform, absent when its
      material has none (the globe itself). */
  datatype SceneChild = SceneChild(name: string, uColor: Option<Rgb>)

  /** The colour a child gets; `highlighted` is None while no arrow is highlighted. */
  function Recolored(c: SceneChild, highlighted: Option<string>, arrowColor: Rgb, highlightColor: Rgb): SceneChild
  {
    if c.uColor.None? then c
    else c.(uColor := Some(if highlighted == Some(c.name) then highlightColor else arrowColor))
  }

  /** Recolouring keeps the name and whether a colour uniform exists; a coloured child gets the
      highlight colour when it carries the highlighted name and the arrow colour otherwise. */
  lemma RecoloredIsExact(c: SceneChild, highlighted: Option<string>, arrowColor: Rgb, highlightColor: Rgb)
    ensures var d := Recolored(c, highlighted, arrowColor, highlightColor);
      && d.name == c.name
      && d.uColor.Some? == c.uColor.Some?
      && (c.uColor.None? ==> d == c)
      && (c.uColor.Some? && highlighted == Some(c.name) ==> d.uColor == Some(highlightColor))
      && (c.uColor.Some? && highlighted != Some(c.name) ==> d.uColor == Some(arrowColor))
  {
  }

  /** Recolouring twice with the same settings is recolouring once, and the result does not
      depend on the colours the children had before. */
  lemma RecoloredIsIdempotent(c: SceneChild, d: SceneChild, highlighted: Option<string>, arrowColor: Rgb, highlightColor: Rgb)
    requires c.name == d.name && c.uColor.Some? == d.uColor.Some?
    ensures Recolored(Recolored(c, highlighted, arrowColor, highlightColor), highlighted, arrowColor, highlightColor)
         == Recolored(c, highlighted, arrowColor, highlightColor)
    ensures Recolored(c, highlighted, arrowColor, highlightColor) == Recolored(d, highlighted, arrowColor, highlightColor)
  {
  }

  /** Highlighting one name paints only the children of that name (the visible arrow mesh) in
      the highlight colour, when the two colours differ. */
  lemma OnlyHighlightedNameStandsOut(children: seq<SceneChild>, name: string, arrowColor: Rgb, highlightColor: Rgb)
    requires arrowColor != highlightColor
    ensures forall i :: 0 <= i < |children| && children[i].uColor.Some? ==>
      (Recolored(children[i], Some(name), arrowColor, highlightColor).uColor == Some(highlightColor)
       <==> children[i].name == name)
  {
  }
}
