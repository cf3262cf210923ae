/** The game session (the `GameWidget` of rhythm_game.py without its painting):
    the falling letters, the counters, the timers and the gameOver signal, with
    one method per event that drives them. */
module Session {
  import opened Config
  import opened Options
  import opened Letters
  import opened Scoring
  import opened Judgment
  import opened Motion

  function Max(a: int, b: int): int { if a < b then b else a }

  /** The search loop of a key press: scans the letters front to back and keeps
      the eligible letter lowest on the screen, replacing the current best only
      by a strictly lower one. */
  method SelectTarget(letters: seq<Letter>, pressed: char) returns (best: Option<nat>)
    ensures best == Target(letters, pressed)
  {
    best := None;
    var i := 0;
    while i < |letters|
      invariant 0 <= i <= |letters|
      invariant best == Target(letters[..i], pressed)
    {
      var letter := letters[i];
      assert letters[..i + 1][..i] == letters[..i];
      if letter.ch == pressed && !letter.isHit && !letter.isMissed {
        var distance := Abs(letter.y - HitLineY);
        if distance <= HitTolerance {
          if best.None? || letter.y > letters[best.value].y {
            best := Some(i);
          }
        }
      }
      i := i + 1;
    }
    assert letters[..i] == letters;
  }

  /** The first pass of an update tick: each letter is moved, then checked for
      an automatic miss, which adds one to the misses and zeroes the combo; the
      positions of letters now below the field are collected for removal. */
  method MoveAndDetectMisses(letters: seq<Letter>, misses: nat, combo: nat, height: int)
    returns (moved: seq<Letter>, newMisses: nat, newCombo: nat, doomed: set<nat>)
    ensures moved == AdvanceAll(letters)
    ensures newMisses == misses + AutoMisses(letters)
    ensures newCombo == if AutoMisses(letters) == 0 then combo else 0
    ensures forall k: nat :: k in doomed <==> k < |moved| && moved[k].y > height
  {
    moved, newMisses, newCombo, doomed := letters, misses, combo, {};
    var i := 0;
    while i < |moved|
      invariant 0 <= i <= |moved| == |letters|
      invariant forall k :: 0 <= k < i ==> moved[k] == Advance(letters[k])
      invariant forall k :: i <= k < |moved| ==> moved[k] == letters[k]
      invariant newMisses == misses + AutoMisses(letters[..i])
      invariant newCombo == if AutoMisses(letters[..i]) == 0 then combo else 0
      invariant forall k: nat :: k in doomed <==> k < i && moved[k].y > height
    {
      AutoMissesStep(letters, i);
      var letter := Move(moved[i]);
      if !letter.isHit && !letter.isMissed && letter.y > HitLineY + HitTolerance {
        letter := letter.(isMissed := true);
        newMisses := newMisses + 1;
        newCombo := 0;
      }
      assert letter == Advance(letters[i]);
      moved := moved[i := letter];
      if letter.y > height {
        doomed := doomed + {i};
      }
      i := i + 1;
    }
    assert letters[..i] == letters;
  }

  /** The removal pass of an update tick: drops the letters whose positions
      are in `doomed` (those below the field), keeping the others in order. */
  method RemoveDoomed(moved: seq<Letter>, doomed: set<nat>, height: int) returns (kept: seq<Letter>)
    requires forall k: nat :: k in doomed <==> k < |moved| && moved[k].y > height
    ensures kept == Survivors(moved, height)
  {
    kept := [];
    var j := 0;
    while j < |moved|
      invariant 0 <= j <= |moved|
      invariant kept == Survivors(moved[..j], height)
    {
      if j !in doomed {
        kept := kept + [moved[j]];
      }
      assert moved[..j + 1][..j] == moved[..j];
      j := j + 1;
    }
    assert moved[..j] == moved;
  }

  class GameSession {
    /** The letters on screen, in spawn order. */
    var letters: seq<Letter>
    var score: nat
    var misses: nat
    var combo: nat
    /** Seconds left on the countdown. */
    var timeLeft: int
    /** Whether the update, spawn and countdown timers are active; the source
        always starts and stops the three together. */
    var running: bool
    /** The scores carried by the gameOver signal, in the order it was emitted. */
    var gameOverSignals: seq<nat>

    /** The session invariant: the countdown never goes below zero, and while
        the timers run there is time left; every letter is well formed. */
    ghost predicate Valid()
      reads this
    {
      && 0 <= timeLeft
      && (running ==> 0 < timeLeft)
      && forall i :: 0 <= i < |letters| ==> LetterOk(letters[i])
    }

    /** A widget that has not started a game: no letters and no timers running. */
    constructor ()
      ensures Valid() && !running
      ensures letters == [] && score == 0 && misses == 0 && combo == 0 && timeLeft == 0
      ensures gameOverSignals == []
    {
      letters := [];
      score, misses, combo := 0, 0, 0;
      timeLeft := 0;
      running := false;
      gameOverSignals := [];
    }

    /** `start_game`: a fresh game with a full countdown and all timers started.
        It may be called again after a game ended (the "Play Again" path). */
    method StartGame()
      modifies this
      ensures Valid() && running
      ensures letters == [] && score == 0 && misses == 0 && combo == 0
      ensures timeLeft == GameDurationSeconds
      ensures gameOverSignals == old(gameOverSignals)
    {
      letters := [];
      score := 0;
      misses := 0;
      combo := 0;
      timeLeft := GameDurationSeconds;
      running := true;
    }

    /** `stop_game`: stops all three timers and nothing else. */
    method StopGame()
      modifies this`running
      ensures !running
    {
      running := false;
    }

    /** `update_game_time`, delivered by the countdown timer: one second less;
        when no time is left the timers stop and gameOver is emitted with the
        current score. With the timers stopped no tick arrives, so a tick after
        the end changes nothing and emits nothing. */
    method CountdownTick()
      requires Valid()
      modifies this
      ensures Valid()
      ensures letters == old(letters) && score == old(score)
      ensures misses == old(misses) && combo == old(combo)
      ensures !old(running) ==>
        !running && timeLeft == old(timeLeft) && gameOverSignals == old(gameOverSignals)
      ensures old(running) ==> timeLeft == old(timeLeft) - 1
      ensures old(running) && timeLeft <= 0 ==>
        !running && gameOverSignals == old(gameOverSignals) + [score]
      ensures old(running) && timeLeft > 0 ==>
        running && gameOverSignals == old(gameOverSignals)
    {
      if !running {
        return;
      }
      timeLeft := timeLeft - 1;
      if timeLeft <= 0 {
        StopGame();
        gameOverSignals := gameOverSignals + [score];
      }
    }

    /** `spawn_letter`, delivered by the spawn timer. The random glyph, the
        glyph's pixel width, the widget width and the random x are inputs; x is
        drawn from [20, max(21, width - letterWidth)]. One new unresolved letter
        is appended at the end; nothing else changes. */
    method SpawnTick(text: char, letterWidth: int, width: int, xPos: int)
      requires Valid()
      requires text in Alphabet
      requires SpawnMargin <= xPos <= Max(SpawnMargin + 1, width - letterWidth)
      modifies this
      ensures Valid()
      ensures score == old(score) && misses == old(misses) && combo == old(combo)
      ensures timeLeft == old(timeLeft) && running == old(running)
      ensures gameOverSignals == old(gameOverSignals)
      ensures !old(running) ==> letters == old(letters)
      ensures old(running) ==> letters == old(letters) + [NewLetter(text, xPos)]
    {
      if !running {
        return;
      }
      NewLetterOk(text, xPos);
      var letter := NewLetter(text, xPos);
      letters := letters + [letter];
    }

    /** `update_game`, delivered by the update timer: every letter is moved and
        checked for an automatic miss (each one adds a miss and breaks the
        combo), then the letters below the field, whatever their status, are
        removed. The widget height is an input. */
    method UpdateTick(height: int)
      requires Valid()
      modifies this
      ensures Valid()
      ensures score == old(score) && timeLeft == old(timeLeft) && running == old(running)
      ensures gameOverSignals == old(gameOverSignals)
      ensures !old(running) ==>
        letters == old(letters) && misses == old(misses) && combo == old(combo)
      ensures old(running) ==>
        && letters == Survivors(AdvanceAll(old(letters)), height)
        && misses == old(misses) + AutoMisses(old(letters))
        && combo == (if AutoMisses(old(letters)) == 0 then old(combo) else 0)
    {
      if !running {
        return;
      }
      var moved, newMisses, newCombo, doomed := MoveAndDetectMisses(letters, misses, combo, height);
      var kept := RemoveDoomed(moved, doomed, height);
      TickKeepsOk(letters, height);
      letters, misses, combo := kept, newMisses, newCombo;
    }

    /** `keyPressEvent`. Key text that is not exactly one letter is ignored.
        Otherwise the target letter (see Judgment.Target) is marked hit and
        scores Points of the combo before the hit, and the combo grows by one;
        with no target the press counts as a miss and breaks the combo. The
        source does not check that a game is running. */
    method KeyPress(text: string)
      requires Valid()
      modifies this
      ensures Valid()
      ensures running == old(running) && timeLeft == old(timeLeft)
      ensures gameOverSignals == old(gameOverSignals)
      ensures NormalizeKey(text).None? ==>
        letters == old(letters) && score == old(score) && misses == old(misses) && combo == old(combo)
      ensures NormalizeKey(text).Some? && Target(old(letters), NormalizeKey(text).value).None? ==>
        letters == old(letters) && score == old(score) && misses == old(misses) + 1 && combo == 0
      ensures NormalizeKey(text).Some? && Target(old(letters), NormalizeKey(text).value).Some? ==>
        var t := Target(old(letters), NormalizeKey(text).value).value;
        && letters == old(letters)[t := old(letters)[t].(isHit := true)]
        && score == old(score) + Points(old(combo))
        && combo == old(combo) + 1
        && misses == old(misses)
    {
      var key := NormalizeKey(text);
      if key.None? {
        return;
      }
      var pressed := key.value;
      var best := SelectTarget(letters, pressed);
      if best.Some? {
        letters := letters[best.value := letters[best.value].(isHit := true)];
        score := score + Points(combo);
        combo := combo + 1;
      } else {
        misses := misses + 1;
        combo := 0;
      }
    }
  }
}
