/** One update tick's effect on the letters (rhythm_game.py, `update_game`):
    move, detect automatic misses, then drop the letters below the field. */
module Motion {
  import opened Config
  import opened Letters

  /** The letter turns from unresolved to missed on this tick: it is not hit,
      not yet missed, and moving it takes it past the tolerance band. */
  predicate NewlyMissed(l: Letter) {
    Unresolved(l) && l.y + WordSpeed > HitLineY + HitTolerance
  }

  /** One letter's update: `move`, then the automatic-miss check. */
  function Advance(l: Letter): (r: Letter)
    ensures r.ch == l.ch && r.x == l.x && r.isHit == l.isHit
    ensures r.y == if l.isHit then l.y else l.y + WordSpeed
    ensures r.isMissed <==> l.isMissed || NewlyMissed(l)
  {
    var m := Move(l);
    if !m.isHit && !m.isMissed && m.y > HitLineY + HitTolerance then m.(isMissed := true) else m
  }

  /** A tick keeps a letter well formed: in particular an unresolved letter
      that leaves the band becomes missed, and a hit letter stays in the band. */
  lemma AdvanceKeepsOk(l: Letter)
    requires LetterOk(l)
    ensures LetterOk(Advance(l))
  {
  }

  /** A resolved letter keeps its status: it is never auto-missed again, and a
      hit letter does not move. */
  lemma ResolvedIsFinal(l: Letter)
    requires !Unresolved(l)
    ensures !NewlyMissed(l)
    ensures Advance(l).isHit == l.isHit && Advance(l).isMissed == l.isMissed
    ensures l.isHit ==> Advance(l) == l
  {
  }

  /** Every letter of the list after the move-and-miss pass. */
  function AdvanceAll(s: seq<Letter>): (r: seq<Letter>)
    ensures |r| == |s|
    ensures forall i :: 0 <= i < |s| ==> r[i] == Advance(s[i])
  {
    seq(|s|, i requires 0 <= i < |s| => Advance(s[i]))
  }

  /** How many letters of the list are auto-missed on this tick. */
  function AutoMisses(s: seq<Letter>): (n: nat)
    ensures n <= |s|
  {
    if s == [] then 0
    else
      var k := |s| - 1;
      AutoMisses(s[..k]) + (if NewlyMissed(s[k]) then 1 else 0)
  }

  /** A tick changes the misses and the combo exactly when some letter of the
      list is auto-missed on it. */
  lemma {:induction false} NoAutoMisses(s: seq<Letter>)
    ensures AutoMisses(s) == 0 <==> forall i :: 0 <= i < |s| ==> !NewlyMissed(s[i])
  {
    if s != [] {
      var k := |s| - 1;
      NoAutoMisses(s[..k]);
      assert forall i :: 0 <= i < k ==> s[..k][i] == s[i];
    }
  }

  /** Counting one more letter of a list. */
  lemma AutoMissesStep(s: seq<Letter>, i: nat)
    requires i < |s|
    ensures AutoMisses(s[..i + 1]) == AutoMisses(s[..i]) + (if NewlyMissed(s[i]) then 1 else 0)
  {
    assert s[..i + 1][..i] == s[..i];
  }

  /** The letters kept after a tick: those not below the field, in order. */
  function Survivors(s: seq<Letter>, height: int): (r: seq<Letter>)
    ensures |r| <= |s|
  {
    if s == [] then []
    else
      var k := |s| - 1;
      Survivors(s[..k], height) + (if s[k].y <= height then [s[k]] else [])
  }

  /** Exactly the letters not below the field survive. */
  lemma {:induction false} SurvivorsMembers(s: seq<Letter>, height: int)
    ensures forall l :: l in Survivors(s, height) ==> l in s && l.y <= height
    ensures forall l :: l in s && l.y <= height ==> l in Survivors(s, height)
  {
    if s != [] {
      var k := |s| - 1;
      SurvivorsMembers(s[..k], height);
      assert s == s[..k] + [s[k]];
    }
  }

  /** After a tick every remaining letter is still well formed. */
  lemma TickKeepsOk(s: seq<Letter>, height: int)
    requires forall i :: 0 <= i < |s| ==> LetterOk(s[i])
    ensures forall i :: 0 <= i < |Survivors(AdvanceAll(s), height)| ==> LetterOk(Survivors(AdvanceAll(s), height)[i])
  {
    var moved := AdvanceAll(s);
    var kept := Survivors(moved, height);
    SurvivorsMembers(moved, height);
    forall i | 0 <= i < |kept| ensures LetterOk(kept[i]) {
      assert kept[i] in moved;
      var n :| 0 <= n < |moved| && moved[n] == kept[i];
      AdvanceKeepsOk(s[n]);
    }
  }

  /** Removal is a filter that keeps relative order: the survivors of a
      concatenation are the survivors of each part, concatenated. */
  lemma {:induction false} SurvivorsAppend(a: seq<Letter>, b: seq<Letter>, height: int)
    ensures Survivors(a + b, height) == Survivors(a, height) + Survivors(b, height)
  {
    if b != [] {
      var k := |b| - 1;
      assert (a + b)[..|a| + k] == a + b[..k];
      SurvivorsAppend(a, b[..k], height);
    } else {
      assert a + b == a;
    }
  }
}
