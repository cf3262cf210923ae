/** Judging a key press against the falling letters (rhythm_game.py, `keyPressEvent`). */
module Judgment {
  import opened Config
  import opened Options
  import opened Letters
  import opened Motion

  /** Python's `str.lower` on a string, character by character. */
  function LowerString(s: string): (r: string)
    ensures |r| == |s|
    ensures forall i :: 0 <= i < |s| ==> r[i] == LowerChar(s[i])
  {
    seq(|s|, i requires 0 <= i < |s| => LowerChar(s[i]))
  }

  /** Python's `str.isalpha` on a string: non-empty and every character a letter. */
  predicate AllAlpha(s: string) {
    |s| > 0 && forall i :: 0 <= i < |s| ==> IsAlpha(s[i])
  }

  /** The input filter of a key press: the lowercased key text is used only when
      it is exactly one alphabetic character; anything else is ignored. */
  function NormalizeKey(text: string): (k: Option<char>)
    ensures k.Some? <==> |text| == 1 && IsAlpha(text[0])
    ensures k.Some? ==> IsLowerLetter(k.value) && k.value == LowerChar(text[0])
  {
    var pressed := LowerString(text);
    if |pressed| == 0 || !AllAlpha(pressed) || |pressed| > 1 then None else Some(pressed[0])
  }

  function Abs(n: int): nat { if n < 0 then -n else n }

  /** A letter a press of `key` may strike: same glyph, unresolved, and within
      the tolerance of the hit line (inclusive at both edges). */
  predicate Eligible(l: Letter, key: char)
    ensures Eligible(l, key) <==>
      l.ch == key && Unresolved(l) && HitLineY - HitTolerance <= l.y <= HitLineY + HitTolerance
  {
    l.ch == key && Unresolved(l) && Abs(l.y - HitLineY) <= HitTolerance
  }

  /** The letter a press of `key` strikes, scanning the list front to back and
      replacing the current best only by an eligible letter strictly lower on
      the screen (greater y). */
  function Target(s: seq<Letter>, key: char): (t: Option<nat>)
    ensures t.Some? ==> t.value < |s| && Eligible(s[t.value], key)
  {
    if s == [] then None
    else
      var n := |s| - 1;
      var best := Target(s[..n], key);
      if Eligible(s[n], key) && (best.None? || s[n].y > s[best.value].y) then Some(n) else best
  }

  /** The target exists exactly when some letter is eligible; it is then an
      eligible letter with the greatest y, and every eligible letter before it
      in the list is strictly higher (the first one wins a tie). */
  lemma {:induction false} TargetIsBest(s: seq<Letter>, key: char)
    ensures Target(s, key).None? <==> forall i :: 0 <= i < |s| ==> !Eligible(s[i], key)
    ensures Target(s, key).Some? ==>
      var t := Target(s, key).value;
      && (forall j :: 0 <= j < |s| && Eligible(s[j], key) ==> s[j].y <= s[t].y)
      && (forall j :: 0 <= j < t && Eligible(s[j], key) ==> s[j].y < s[t].y)
  {
    if s != [] {
      var n := |s| - 1;
      var p := s[..n];
      TargetIsBest(p, key);
      assert forall j :: 0 <= j < n ==> s[j] == p[j];
    }
  }

  /** Of two same-glyph letters both in the band, the press strikes the lower
      one and leaves the higher one unresolved. */
  lemma TieBreak(s: seq<Letter>, key: char, i: nat, j: nat)
    requires i < |s| && j < |s|
    requires Eligible(s[i], key) && Eligible(s[j], key) && s[i].y < s[j].y
    ensures Target(s, key).Some? && Target(s, key).value != i
  {
    TargetIsBest(s, key);
  }

  /** The edges of the band: a letter exactly HitTolerance below the line can
      still be struck, and one update tick later it is past the band, counted
      as an automatic miss and no longer eligible. */
  lemma ToleranceBoundary(l: Letter)
    requires Unresolved(l) && l.y == HitLineY + HitTolerance
    ensures Eligible(l, l.ch)
    ensures !Eligible(Move(l), l.ch) && Move(l).y > HitLineY + HitTolerance
    ensures NewlyMissed(l) && Advance(l).isMissed && !Eligible(Advance(l), l.ch)
  {
  }
}
