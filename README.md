# Rhythm typing game: gameplay engine

A Dafny model of the gameplay engine of a small PyQt typing game
(`rhythm_game.py`). Single letters fall from above the play field towards a
horizontal hit line at y = 500. The player strikes a letter by pressing its key
while the letter is within 25 pixels of the line. A hit scores
`10 * (1 + combo / 10)` points and extends the combo. A press with nothing to
strike counts as a miss, and so does a letter that falls past the band
unresolved; both kinds of miss reset the combo. A 60-second countdown ends the
game and emits the final score. The game-over screen then adds the score to a
top-5 leaderboard.

Modules:

- `Config` (config.dfy): the game's constants. `Options` holds an `Option` type.
- `Letters` (letters.dfy): the falling letter as a value: glyph, x, y and the
  `isHit`/`isMissed` flags. Holds its constructor `NewLetter`, `Move`, and the
  invariant `LetterOk` that every letter of a session keeps.
- `Scoring` (scoring.dfy): the points for a hit.
- `Judgment` (judgment.dfy): the key filter, the eligibility rule, and
  `Target`, the letter a press strikes. `Target` is a reference definition that
  scans the list the way the source does. `TargetIsBest` proves what it picks.
- `Motion` (motion.dfy): one update tick on the letters. `Advance` moves a
  letter and applies the auto-miss check. `AutoMisses` counts the new misses,
  and `Survivors` is the removal filter.
- `Session` (session.dfy): the class `GameSession` with the list of letters,
  the counters, the timers (one `running` flag) and the emitted gameOver
  signals. It has one method per event: `StartGame`, `StopGame`,
  `CountdownTick`, `SpawnTick`, `UpdateTick` and `KeyPress`. The loops of
  `update_game` and `keyPressEvent` are the methods `MoveAndDetectMisses`,
  `RemoveDoomed` and `SelectTarget`, each proved against the functions above.
- `Leaderboard` (leaderboard.dfy): the list logic of saving a score. It
  defaults the name, appends, sorts stably from highest to lowest score, and
  keeps the top 5.

The model follows the code on these points, which are easy to misread:

- `move` skips only hit letters. Missed letters keep falling until they leave
  the field, and hit letters stay frozen in place.
- A key press is judged whether or not the timers run. There is no phase check.
- The spawn x range is `[20, max(21, width - letterWidth)]`. A narrow field
  does not collapse it to the left margin.
- `start_game` may be called again on the same session after a game ended.
  This is the "Play Again" path.
- A countdown tick after the end is a no-op only because the timers are
  stopped. The model's ticks do nothing while `running` is false.

## Model

| member | source | states |
|---|---|---|
| Letters.LowerChar | rhythm_game.py:30 | lowercasing maps each uppercase letter to the lowercase letter at the same place in the alphabet, keeps a character alphabetic exactly when it was, and leaves everything that is not uppercase unchanged |
| Letters.NewLetter | rhythm_game.py:29-33 | a new letter stores the lowercased glyph (a lowercase letter for alphabetic input), starts unresolved at x and at y = -FONT_SIZE, above the field and above the tolerance band |
| Letters.NewLetterOk | rhythm_game.py:29-33 | a letter spawned from an alphabetic glyph at x >= 20 satisfies the session invariant |
| Letters.Move | rhythm_game.py:35-38 | moving keeps glyph, x and flags; a letter that is not hit falls by exactly WORD_SPEED, and y stays put exactly when the letter is hit |
| Scoring.Points | rhythm_game.py:185 | a hit is worth at least 10, always a multiple of 10, and exactly 10 while the combo is below 10 |
| Scoring.PointsTier | rhythm_game.py:185 | a combo in [10k, 10k+9] before the hit earns 10(k+1) points |
| Scoring.PointsMonotone | rhythm_game.py:185 | a longer combo never earns less; 10 more hits add exactly 10 points per hit, with no cap |
| Judgment.LowerString | rhythm_game.py:169 | lowercasing the key text keeps its length and lowercases each character |
| Judgment.NormalizeKey | rhythm_game.py:169-171 | the key is used exactly when the text is one alphabetic character, and then it is that character lowercased |
| Judgment.Eligible | rhythm_game.py:177-179 | a press of a key may strike a letter exactly when the glyph matches, the letter is neither hit nor missed, and y lies in the closed band [HIT_LINE_Y - HIT_TOLERANCE, HIT_LINE_Y + HIT_TOLERANCE] |
| Judgment.Target | rhythm_game.py:174-181 | the chosen index is in the list and names an eligible letter |
| Judgment.TargetIsBest | rhythm_game.py:174-181 | a target exists iff some letter is eligible; it has the greatest y among eligible letters, and every eligible letter before it is strictly higher |
| Judgment.TieBreak | rhythm_game.py:180-181 | of two eligible letters, the higher one is never struck |
| Judgment.ToleranceBoundary | rhythm_game.py:176-179 | a letter exactly at HIT_LINE_Y + HIT_TOLERANCE can be struck; one update tick later it is past the band, marked missed and no longer eligible |
| Motion.Advance | rhythm_game.py:116-123 | glyph, x and hit flag kept; y grows by WORD_SPEED unless hit; missed afterwards iff missed before or newly past the band |
| Motion.ResolvedIsFinal | rhythm_game.py:116-123 | a resolved letter is never auto-missed again, keeps its flags, and a hit letter is unchanged |
| Motion.AdvanceKeepsOk | rhythm_game.py:116-123 | a tick keeps a letter well formed: never both hit and missed, unresolved only within the band |
| Motion.AdvanceAll | rhythm_game.py:115-123 | the first pass of a tick keeps the number and order of letters and advances each one |
| Motion.AutoMisses | rhythm_game.py:119-123 | no more misses are counted than there are letters |
| Motion.AutoMissesStep | rhythm_game.py:119-123 | each letter of the pass adds exactly one miss when it newly passes the band, and none otherwise |
| Motion.NoAutoMisses | rhythm_game.py:119-123 | a tick adds no miss exactly when no letter newly passes the band |
| Motion.Survivors | rhythm_game.py:125-130 | removal never adds letters; which letters remain is stated by SurvivorsMembers and SurvivorsAppend |
| Motion.SurvivorsMembers | rhythm_game.py:125-130 | after removal exactly the letters with y <= height remain |
| Motion.SurvivorsAppend | rhythm_game.py:125-130 | removal is an order-preserving filter: it distributes over concatenation |
| Motion.TickKeepsOk | rhythm_game.py:112-130 | every letter left after a tick satisfies the session invariant |
| Session.SelectTarget | rhythm_game.py:173-181 | the search loop returns exactly Target of the letters and the key |
| Session.MoveAndDetectMisses | rhythm_game.py:114-127 | the first pass yields every letter advanced, misses plus AutoMisses, combo zeroed iff some letter was auto-missed, and the positions below the field |
| Session.RemoveDoomed | rhythm_game.py:129-130 | removing the collected positions yields Survivors of the moved letters |
| Session.GameSession.constructor | rhythm_game.py:55-73 | a new session has no letters, zero counters and no running timers |
| Session.GameSession.StartGame | rhythm_game.py:75-86 | letters emptied, score, misses and combo zeroed, time set to GAME_DURATION_SECONDS, timers running |
| Session.GameSession.StopGame | rhythm_game.py:88-92 | the timers stop and nothing else changes |
| Session.GameSession.CountdownTick | rhythm_game.py:94-99 | while running, time drops by exactly 1; at <= 0 the timers stop and the current score is emitted once; with the timers stopped nothing changes |
| Session.GameSession.SpawnTick | rhythm_game.py:102-110 | while running, exactly one new unresolved lowercase letter at y = -FONT_SIZE is appended; counters, time and earlier letters unchanged |
| Session.GameSession.UpdateTick | rhythm_game.py:112-132 | while running, the letters become Survivors of the advanced letters, misses grow by AutoMisses, combo resets iff a letter was auto-missed, score unchanged |
| Session.GameSession.KeyPress | rhythm_game.py:167-191 | invalid key text changes nothing; a hit marks only the Target letter hit, adds Points of the old combo and increments combo; otherwise misses + 1, combo 0, letters and score unchanged |
| Leaderboard.Strip | rhythm_game.py:278 | the stripped name is a contiguous slice of the entered text, and everything removed before and after it is whitespace; with StripTrimmed, no whitespace is left at either end |
| Leaderboard.StripTrimmed | rhythm_game.py:278 | a non-empty stripped name neither starts nor ends with whitespace |
| Leaderboard.StripEmpty | rhythm_game.py:278-279 | a name strips to nothing exactly when it is all whitespace |
| Leaderboard.PlayerName | rhythm_game.py:278-280 | the stored name is never empty; its exact value is stated by PlayerNameSpec |
| Leaderboard.PlayerNameSpec | rhythm_game.py:278-280 | the stored name is the stripped text, or "Player" when the text is blank |
| Leaderboard.SortDesc | rhythm_game.py:286 | the sort keeps the number of entries; order, permutation and stability are stated by SortSorted, SortPermutation and SortStable |
| Leaderboard.SortSorted | rhythm_game.py:286 | the sort orders entries from highest to lowest score |
| Leaderboard.SortPermutation | rhythm_game.py:286 | the sort is a permutation of its input |
| Leaderboard.SortStable | rhythm_game.py:286 | entries with equal scores keep their input order |
| Leaderboard.SortIdempotent | rhythm_game.py:286 | an already sorted board is left unchanged |
| Leaderboard.Top | rhythm_game.py:287 | the kept list is a prefix of the sorted list with at most MAX_HIGH_SCORES entries: all of it when it is that short, exactly MAX_HIGH_SCORES entries otherwise |
| Leaderboard.TopKeepsBest | rhythm_game.py:287 | truncating a list sorted by score drops only entries that score no more than every entry kept |
| Leaderboard.AddScore | rhythm_game.py:278-287 | the saved board never holds more than MAX_HIGH_SCORES entries |
| Leaderboard.AddScoreSpec | rhythm_game.py:278-287 | the new board has min(n+1, 5) entries, sorted, drawn from the old board and the new entry, and no entry left out scores more than any entry kept; the entry sits after every old entry scoring at least as much and is kept iff fewer than 5 of them exist; a blank name is stored as "Player" |

## Left out

- Painting and widgets: `paintEvent`, `draw`, `draw_ui`, the game-over form,
  `MainWindow` screen switching and the program entry point. These are
  presentation only.
- The three `QTimer`s, their intervals and the interleaving of their signals.
  They are replaced by explicit tick methods and one `running` flag, because
  the source only ever starts and stops the three together. `self.update()`
  redraw requests and `setFocus` are not modelled.
- `random.choice` and `random.randint`. The glyph and the x position are
  method inputs, restricted to the source's ranges.
- `QFontMetrics.horizontalAdvance`, `self.width()` and `self.height()`. These
  are integer inputs to `SpawnTick` and `UpdateTick`.
- Loading and writing `high_scores.json` and the `os.path.exists` check. The
  leaderboard functions take the loaded list as input. Entries missing a
  `score` key are not modelled.
- Floating-point positions. y is an integer, which is exact for the configured
  speed of 3.0 and start of -30.
- Unicode. `isalpha`, `lower` and `strip` are modelled on ASCII only.
- FallingLetter object identity: letters are values in a sequence that the
  session reassigns. No other reference to a letter exists in the core, so the
  in-place mutation is not observable.
- Attributes before `start_game`: the source creates the letters and counters
  only in `start_game`. The constructor gives them empty and zero values.
- Motion.AutoMisses: its own contract states only the bound. That each newly
  missed letter adds exactly one is stated by Motion.AutoMissesStep, and the
  zero case by Motion.NoAutoMisses.
- Motion.Survivors: its own contract states only that nothing is added. Which
  letters remain, and in what order, is stated by Motion.SurvivorsMembers and
  Motion.SurvivorsAppend.
- Leaderboard.PlayerName: its own contract states only that the name is not
  empty. The exact name is stated by Leaderboard.PlayerNameSpec.
- Leaderboard.SortDesc: its own contract states only the length. Order,
  permutation and stability are stated by Leaderboard.SortSorted,
  Leaderboard.SortPermutation and Leaderboard.SortStable.
- Leaderboard.AddScore: its own contract states only the length bound.
  Leaderboard.AddScoreSpec states which scores are kept and where the new entry
  goes. Among entries tied at the cut-off score, AddScoreSpec does not say which
  are kept. That follows from the sort's stability (Leaderboard.SortStable) and
  from Top keeping a prefix.
