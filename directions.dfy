/** The three backtracking directions and the glyph each one is printed as. */
module Directions {

  /** Left = came from an insertion, Up = from a deletion, UpLeft = from a match or substitution. */
  datatype Direction = Left | Up | UpLeft {
    /** The enum value of the direction (1, 2, 3); the direction table stores it at slot Value() - 1. */
    function Value(): (v: int)
      ensures 1 <= v <= 3
    {
      match this
      case Left => 1
      case Up => 2
      case UpLeft => 3
    }
  }

  /** The direction stored at flag slot k of a direction-table cell. */
  function AtSlot(k: int): (d: Direction)
    requires 0 <= k < 3
    ensures d.Value() == k + 1
  {
    if k == 0 then Left else if k == 1 then Up else UpLeft
  }

  /** The glyph of a direction value; any value that names no direction has the empty glyph. */
  function GetChar(dirValue: int): string
  {
    if dirValue == Left.Value() then "←"
    else if dirValue == Up.Value() then "↑"
    else if dirValue == UpLeft.Value() then "↖"
    else ""
  }

  /** The glyph of a direction. */
  function Glyph(d: Direction): string
  {
    GetChar(d.Value())
  }

  /** GetChar gives a non-empty glyph exactly to the three direction values, and distinct
      directions get distinct glyphs, so a glyph identifies its direction. */
  lemma GlyphIdentifiesDirection(d: Direction, e: Direction, v: int)
    ensures Glyph(d) != ""
    ensures Glyph(d) == Glyph(e) <==> d == e
    ensures GetChar(v) != "" <==> 1 <= v <= 3
  {
    assert "←"[0] != "↑"[0] && "←"[0] != "↖"[0] && "↑"[0] != "↖"[0];
  }

  /** The replay tells directions apart by comparing glyphs with "↖" and "←"; this decoding
      recovers the direction from its glyph. */
  function Decode(glyph: string): (d: Direction)
  {
    if glyph == "↖" then UpLeft else if glyph == "←" then Left else Up
  }

  lemma DecodeGlyph(d: Direction)
    ensures Decode(Glyph(d)) == d
  {
    GlyphIdentifiesDirection(d, UpLeft, 0);
    GlyphIdentifiesDirection(d, Left, 0);
  }
}
