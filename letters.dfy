/** A single falling letter (the `FallingLetter` class of rhythm_game.py) and the
    character helpers the engine uses. Only ASCII letters are modelled. */
module Letters {
  import opened Config

  predicate IsLowerLetter(c: char) { 'a' <= c <= 'z' }
  predicate IsUpperLetter(c: char) { 'A' <= c <= 'Z' }
  /** Python's `str.isalpha` on one character, restricted to ASCII. */
  predicate IsAlpha(c: char) { IsLowerLetter(c) || IsUpperLetter(c) }

  /** Python's `str.lower` on one character, restricted to ASCII. */
  function LowerChar(c: char): (r: char)
    ensures IsAlpha(r) <==> IsAlpha(c)
    ensures IsAlpha(c) ==> IsLowerLetter(r)
    ensures !IsUpperLetter(c) ==> r == c
    ensures IsUpperLetter(c) ==> r as int - 'a' as int == c as int - 'A' as int
  {
    if IsUpperLetter(c) then (c as int - 'A' as int + 'a' as int) as char else c
  }

  /** A letter's glyph, horizontal position, vertical position and resolution flags. */
  datatype Letter = Letter(ch: char, x: int, y: int, isHit: bool, isMissed: bool)

  /** Neither hit nor missed: still falling as far as judgment is concerned. */
  predicate Unresolved(l: Letter) { !l.isHit && !l.isMissed }

  /** `FallingLetter.__init__`: the glyph is lowercased and the letter starts
      above the field, unresolved. */
  function NewLetter(text: char, xPos: int): (l: Letter)
    ensures l.ch == LowerChar(text) && (IsAlpha(text) ==> IsLowerLetter(l.ch))
    ensures Unresolved(l) && l.x == xPos && l.y == -FontSize
    ensures l.y < 0 && l.y < HitLineY - HitTolerance
  {
    Letter(LowerChar(text), xPos, -FontSize, false, false)
  }

  /** `FallingLetter.move`: every letter that is not hit (missed ones included)
      falls by WordSpeed; a hit letter stays frozen where it was struck. */
  function Move(l: Letter): (r: Letter)
    ensures r.ch == l.ch && r.x == l.x && r.isHit == l.isHit && r.isMissed == l.isMissed
    ensures r.y >= l.y
    ensures r.y == l.y <==> l.isHit
    ensures !l.isHit ==> r.y == l.y + WordSpeed
  {
    if l.isHit then l else l.(y := l.y + WordSpeed)
  }

  /** What every letter in a session satisfies: a lowercase glyph inside the left
      margin, a position on the spawn grid, at most one resolution, a hit letter
      inside the tolerance band, a missed letter past it and an unresolved letter
      not yet past it. */
  predicate LetterOk(l: Letter) {
    && IsLowerLetter(l.ch)
    && SpawnMargin <= l.x
    && -FontSize <= l.y
    && (l.y + FontSize) % WordSpeed == 0
    && !(l.isHit && l.isMissed)
    && (l.isHit ==> HitLineY - HitTolerance <= l.y <= HitLineY + HitTolerance)
    && (l.isMissed ==> l.y > HitLineY + HitTolerance)
    && (Unresolved(l) ==> l.y <= HitLineY + HitTolerance)
  }

  /** A freshly spawned letter satisfies the session invariant. */
  lemma NewLetterOk(text: char, xPos: int)
    requires IsAlpha(text) && SpawnMargin <= xPos
    ensures LetterOk(NewLetter(text, xPos))
  {
  }
}
