/** The in-memory part of saving a score (rhythm_game.py, `save_and_show_scores`):
    default the name, append the entry, sort by score from highest to lowest
    keeping entries of equal score in their existing order, keep the top
    MaxHighScores. Loading and writing the JSON file are not modelled. */
module Leaderboard {
  import opened Config

  datatype Entry = Entry(name: string, score: int)

  /** Python's `str.isspace` on one character, restricted to ASCII. */
  predicate IsSpace(c: char) {
    c == ' ' || '\t' <= c <= '\r' || '\U{1C}' <= c <= '\U{1F}'
  }

  predicate AllSpace(s: string) {
    forall i :: 0 <= i < |s| ==> IsSpace(s[i])
  }

  /** Drops leading whitespace. */
  function StripLeft(s: string): (r: string)
    ensures |r| <= |s| && r == s[|s| - |r|..]
    ensures r != [] ==> !IsSpace(r[0])
    ensures forall i :: 0 <= i < |s| - |r| ==> IsSpace(s[i])
  {
    if s != [] && IsSpace(s[0]) then StripLeft(s[1..]) else s
  }

  /** Drops trailing whitespace. */
  function StripRight(s: string): (r: string)
    ensures |r| <= |s| && r == s[..|r|]
    ensures r != [] ==> !IsSpace(r[|r| - 1])
    ensures forall i :: |r| <= i < |s| ==> IsSpace(s[i])
  {
    if s != [] && IsSpace(s[|s| - 1]) then StripRight(s[..|s| - 1]) else s
  }

  /** Python's `str.strip()`: the text between the leading and the trailing
      whitespace, which is all that is removed. */
  function Strip(s: string): (r: string)
    ensures |StripLeft(s)| <= |s| && |s| - |StripLeft(s)| + |r| <= |s|
    ensures forall i :: 0 <= i < |r| ==> r[i] == s[|s| - |StripLeft(s)| + i]
    ensures forall i :: 0 <= i < |s| - |StripLeft(s)| ==> IsSpace(s[i])
    ensures forall i :: |s| - |StripLeft(s)| + |r| <= i < |s| ==> IsSpace(s[i])
  {
    var l := StripLeft(s);
    var r := StripRight(l);
    TailPrefix(s, l, r);
    r
  }

  /** A prefix `r` of a suffix `l` of `s` is a slice of `s`, and what follows
      `r` in `l` is what follows it in `s`. */
  lemma TailPrefix(s: string, l: string, r: string)
    requires |l| <= |s| && l == s[|s| - |l|..] && |r| <= |l| && r == l[..|r|]
    requires forall i :: |r| <= i < |l| ==> IsSpace(l[i])
    ensures forall i :: 0 <= i < |r| ==> r[i] == s[|s| - |l| + i]
    ensures forall i :: |s| - |l| + |r| <= i < |s| ==> IsSpace(s[i])
  {
    var k := |s| - |l|;
    forall i | 0 <= i < |r|
      ensures r[i] == s[k + i]
    {
      assert r[i] == l[i] == s[k + i];
    }
    forall i | k + |r| <= i < |s|
      ensures IsSpace(s[i])
    {
      assert s[i] == l[i - k];
    }
  }

  /** Stripping leaves nothing exactly when the text is all whitespace. */
  lemma StripEmpty(s: string)
    ensures Strip(s) == [] <==> AllSpace(s)
  {
    var l := StripLeft(s);
    if l != [] {
      assert l[0] == s[|s| - |l|];
    }
  }

  /** A stripped text neither starts nor ends with whitespace. */
  lemma StripTrimmed(s: string)
    ensures Strip(s) != [] ==> !IsSpace(Strip(s)[0]) && !IsSpace(Strip(s)[|Strip(s)| - 1])
  {
    var l := StripLeft(s);
    var r := StripRight(l);
    if r != [] {
      assert r[0] == l[0];
    }
  }

  /** The name stored with a score: the entered text without surrounding
      whitespace, or "Player" when nothing but whitespace was entered. */
  function PlayerName(raw: string): (name: string)
    ensures name != []
  {
    var stripped := Strip(raw);
    if stripped == [] then "Player" else stripped
  }

  /** The stored name is never blank and never starts or ends with
      whitespace; it is "Player" exactly when the entered text is all
      whitespace, and otherwise the entered text stripped. */
  lemma PlayerNameSpec(raw: string)
    ensures var name := PlayerName(raw);
      && !IsSpace(name[0]) && !IsSpace(name[|name| - 1])
      && (AllSpace(raw) ==> name == "Player")
      && (!AllSpace(raw) ==> name == Strip(raw))
  {
    StripEmpty(raw);
    StripTrimmed(raw);
    var name := PlayerName(raw);
    if AllSpace(raw) {
      assert name == "Player";
      assert name[0] == 'P' && name[|name| - 1] == 'r';
    }
  }

  /** Ordered from the highest score to the lowest. */
  predicate SortedDesc(s: seq<Entry>) {
    forall i, j :: 0 <= i < j < |s| ==> s[i].score >= s[j].score
  }

  /** The number of entries scoring at least `v`. */
  function CountAtLeast(s: seq<Entry>, v: int): (n: nat)
    ensures n <= |s|
  {
    if s == [] then 0 else (if s[0].score >= v then 1 else 0) + CountAtLeast(s[1..], v)
  }

  /** The entries with score exactly `v`, in their order in `s`. */
  function WithScore(s: seq<Entry>, v: int): seq<Entry> {
    if s == [] then [] else (if s[0].score == v then [s[0]] else []) + WithScore(s[1..], v)
  }

  /** Inserts `e` after every entry scoring at least as much as it. */
  function InsertDesc(s: seq<Entry>, e: Entry): (r: seq<Entry>)
    ensures |r| == |s| + 1
  {
    if s == [] then [e]
    else if s[0].score >= e.score then [s[0]] + InsertDesc(s[1..], e)
    else [e] + s
  }

  /** Python's stable `sort(key=score, reverse=True)`, as insertion of each
      entry in turn. */
  function SortDesc(s: seq<Entry>): (r: seq<Entry>)
    ensures |r| == |s|
  {
    if s == [] then [] else InsertDesc(SortDesc(s[..|s| - 1]), s[|s| - 1])
  }

  // Properties of insertion

  /** In a sorted list, if the first entry scores below `v`, none reaches `v`. */
  lemma {:induction false} SortedBelow(s: seq<Entry>, v: int)
    requires SortedDesc(s) && s != [] && s[0].score < v
    ensures CountAtLeast(s, v) == 0
    ensures forall i :: 0 <= i < |s| ==> s[i].score < v
  {
    if |s| > 1 {
      assert SortedDesc(s[1..]);
      SortedBelow(s[1..], v);
    }
  }

  /** In a sorted list the entries reaching `v` are exactly the first
      CountAtLeast(s, v). */
  lemma {:induction false} SortedSplit(s: seq<Entry>, v: int)
    requires SortedDesc(s)
    ensures var k := CountAtLeast(s, v);
      && (forall i :: 0 <= i < k ==> s[i].score >= v)
      && (forall i :: k <= i < |s| ==> s[i].score < v)
  {
    if s != [] {
      if s[0].score >= v {
        var t := s[1..];
        assert SortedDesc(t);
        SortedSplit(t, v);
        var k := CountAtLeast(s, v);
        assert k == CountAtLeast(t, v) + 1;
        forall i | 0 < i < |s| ensures s[i] == t[i - 1] {
        }
      } else {
        SortedBelow(s, v);
      }
    }
  }

  /** Inserting into a sorted list puts `e` right after the entries scoring at
      least as much and keeps everything else in place. */
  lemma {:induction false} InsertShape(s: seq<Entry>, e: Entry)
    requires SortedDesc(s)
    ensures var k := CountAtLeast(s, e.score);
      InsertDesc(s, e) == s[..k] + [e] + s[k..]
  {
    if s == [] {
    } else if s[0].score >= e.score {
      var t := s[1..];
      assert SortedDesc(t);
      InsertShape(t, e);
      var k' := CountAtLeast(t, e.score);
      assert CountAtLeast(s, e.score) == k' + 1;
      assert InsertDesc(s, e) == [s[0]] + (t[..k'] + [e] + t[k'..]);
      assert s[..k' + 1] == [s[0]] + t[..k'];
      assert s[k' + 1..] == t[k'..];
    } else {
      SortedBelow(s, e.score);
    }
  }

  /** The same, position by position. */
  lemma InsertPosition(s: seq<Entry>, e: Entry)
    requires SortedDesc(s)
    ensures var k := CountAtLeast(s, e.score); var r := InsertDesc(s, e);
      && (forall i :: 0 <= i < k ==> r[i] == s[i] && s[i].score >= e.score)
      && r[k] == e
      && (forall i :: k < i < |r| ==> r[i] == s[i - 1] && s[i - 1].score < e.score)
  {
    InsertShape(s, e);
    SortedSplit(s, e.score);
    var k := CountAtLeast(s, e.score);
    var r := InsertDesc(s, e);
    forall i | k < i < |r| ensures r[i] == s[i - 1] {
      assert r[i] == s[k..][i - k - 1];
    }
  }

  /** Inserting into a sorted list leaves it sorted. */
  lemma InsertSorted(s: seq<Entry>, e: Entry)
    requires SortedDesc(s)
    ensures SortedDesc(InsertDesc(s, e))
  {
    InsertPosition(s, e);
    var k := CountAtLeast(s, e.score);
    var r := InsertDesc(s, e);
    forall i, j | 0 <= i < j < |r| ensures r[i].score >= r[j].score {
      var si := if i <= k then i else i - 1;
      var sj := if j <= k then j else j - 1;
      if i != k && j != k {
        assert r[i] == s[si] && r[j] == s[sj] && si < sj;
      }
    }
  }

  /** Insertion adds `e` and loses nothing. */
  lemma {:induction false} InsertMultiset(s: seq<Entry>, e: Entry)
    ensures multiset(InsertDesc(s, e)) == multiset(s) + multiset{e}
  {
    if s != [] && s[0].score >= e.score {
      InsertMultiset(s[1..], e);
      assert InsertDesc(s, e) == [s[0]] + InsertDesc(s[1..], e);
      assert s == [s[0]] + s[1..];
    }
  }

  lemma {:induction false} WithScoreAppend(a: seq<Entry>, b: seq<Entry>, v: int)
    ensures WithScore(a + b, v) == WithScore(a, v) + WithScore(b, v)
  {
    if a != [] {
      assert (a + b)[1..] == a[1..] + b;
      WithScoreAppend(a[1..], b, v);
    } else {
      assert a + b == b;
    }
  }

  lemma {:induction false} WithScoreNone(s: seq<Entry>, v: int)
    requires forall i :: 0 <= i < |s| ==> s[i].score != v
    ensures WithScore(s, v) == []
  {
    if s != [] {
      WithScoreNone(s[1..], v);
    }
  }

  /** Filtering a list with `e` placed before entries that all score below it. */
  lemma WithScoreAround(a: seq<Entry>, e: Entry, b: seq<Entry>, v: int)
    requires forall i :: 0 <= i < |b| ==> b[i].score < e.score
    ensures WithScore(a + [e] + b, v) == WithScore(a + b, v) + (if e.score == v then [e] else [])
  {
    assert [e][1..] == [];
    WithScoreAppend(a + [e], b, v);
    WithScoreAppend(a, [e], v);
    WithScoreAppend(a, b, v);
    if v == e.score {
      WithScoreNone(b, v);
    }
  }

  /** Entries of one score keep their order when `e` is inserted; `e` comes
      after the ones already there. */
  lemma InsertWithScore(s: seq<Entry>, e: Entry, v: int)
    requires SortedDesc(s)
    ensures WithScore(InsertDesc(s, e), v) == WithScore(s, v) + (if e.score == v then [e] else [])
  {
    InsertShape(s, e);
    SortedSplit(s, e.score);
    var k := CountAtLeast(s, e.score);
    var a, b := s[..k], s[k..];
    assert s == a + b;
    WithScoreAround(a, e, b, v);
  }

  lemma {:induction false} CountAppend(a: seq<Entry>, b: seq<Entry>, v: int)
    ensures CountAtLeast(a + b, v) == CountAtLeast(a, v) + CountAtLeast(b, v)
  {
    if a != [] {
      assert (a + b)[1..] == a[1..] + b;
      CountAppend(a[1..], b, v);
    } else {
      assert a + b == b;
    }
  }

  /** Counting entries that reach `v` after an insertion. */
  lemma {:induction false} InsertCount(s: seq<Entry>, e: Entry, v: int)
    ensures CountAtLeast(InsertDesc(s, e), v) == CountAtLeast(s, v) + (if e.score >= v then 1 else 0)
  {
    if s == [] {
    } else if s[0].score >= e.score {
      InsertCount(s[1..], e, v);
      assert InsertDesc(s, e)[1..] == InsertDesc(s[1..], e);
    } else {
      assert InsertDesc(s, e)[1..] == s;
    }
  }

  // Properties of the sort

  /** The sort orders the list from highest to lowest score. */
  lemma {:induction false} SortSorted(s: seq<Entry>)
    ensures SortedDesc(SortDesc(s))
  {
    if s != [] {
      var n := |s| - 1;
      SortSorted(s[..n]);
      InsertSorted(SortDesc(s[..n]), s[n]);
    }
  }

  /** The sort is a permutation of its input. */
  lemma {:induction false} SortPermutation(s: seq<Entry>)
    ensures multiset(SortDesc(s)) == multiset(s)
  {
    if s != [] {
      var n := |s| - 1;
      var p, x := s[..n], s[n];
      SortPermutation(p);
      InsertMultiset(SortDesc(p), x);
      assert SortDesc(s) == InsertDesc(SortDesc(p), x);
      assert s == p + [x];
      assert multiset(s) == multiset(p) + multiset{x};
    }
  }

  /** The sort is stable: the entries of each score appear in the same order
      as in the input. */
  lemma {:induction false} SortStable(s: seq<Entry>, v: int)
    ensures WithScore(SortDesc(s), v) == WithScore(s, v)
  {
    if s != [] {
      var n := |s| - 1;
      var p, x := s[..n], s[n];
      SortStable(p, v);
      SortSorted(p);
      InsertWithScore(SortDesc(p), x, v);
      assert s == p + [x];
      assert [x][1..] == [];
      WithScoreAppend(p, [x], v);
    }
  }

  /** The sort does not change how many entries reach a score. */
  lemma {:induction false} SortCount(s: seq<Entry>, v: int)
    ensures CountAtLeast(SortDesc(s), v) == CountAtLeast(s, v)
  {
    if s != [] {
      var n := |s| - 1;
      var p, x := s[..n], s[n];
      SortCount(p, v);
      InsertCount(SortDesc(p), x, v);
      assert s == p + [x];
      assert [x][1..] == [];
      CountAppend(p, [x], v);
    }
  }

  /** An entry scoring no more than every entry of the list goes at the end. */
  lemma {:induction false} InsertAtEnd(s: seq<Entry>, e: Entry)
    requires forall i :: 0 <= i < |s| ==> s[i].score >= e.score
    ensures InsertDesc(s, e) == s + [e]
  {
    if s != [] {
      InsertAtEnd(s[1..], e);
      assert s == [s[0]] + s[1..];
    }
  }

  /** A list that is already sorted is left as it is (a saved board is not
      reordered when loaded and sorted again). */
  lemma {:induction false} SortIdempotent(s: seq<Entry>)
    requires SortedDesc(s)
    ensures SortDesc(s) == s
  {
    if s != [] {
      var n := |s| - 1;
      var p := s[..n];
      assert SortedDesc(p);
      SortIdempotent(p);
      assert forall i :: 0 <= i < n ==> p[i] == s[i];
      InsertAtEnd(p, s[n]);
      assert s == p + [s[n]];
    }
  }

  /** The keep-the-top-N step. */
  function Top(s: seq<Entry>): (r: seq<Entry>)
    ensures |r| <= MaxHighScores && |r| <= |s| && r == s[..|r|]
    ensures |s| <= MaxHighScores ==> r == s
    ensures |s| > MaxHighScores ==> |r| == MaxHighScores
  {
    s[..if |s| < MaxHighScores then |s| else MaxHighScores]
  }

  /** `save_and_show_scores` on the loaded list: the new entry is appended,
      the list sorted, and only the top MaxHighScores kept. */
  function AddScore(board: seq<Entry>, rawName: string, finalScore: int): (r: seq<Entry>)
    ensures |r| <= MaxHighScores
  {
    Top(SortDesc(board + [Entry(PlayerName(rawName), finalScore)]))
  }

  /** Keeping a prefix keeps the order and only drops entries. */
  lemma TopOfSorted(s: seq<Entry>)
    requires SortedDesc(s)
    ensures SortedDesc(Top(s)) && multiset(Top(s)) <= multiset(s)
  {
    var m := |Top(s)|;
    assert s == s[..m] + s[m..];
    assert multiset(s) == multiset(Top(s)) + multiset(s[m..]);
  }

  /** In a sorted list, an entry found after position m scores no more than
      any entry before m. */
  lemma SortedTail(s: seq<Entry>, m: nat, x: Entry, j: nat)
    requires SortedDesc(s) && j < m <= |s| && x in multiset(s[m..])
    ensures x.score <= s[j].score
  {
    var rest := s[m..];
    assert x in rest;
    var i :| 0 <= i < |rest| && rest[i] == x;
    assert s[m + i] == x;
  }

  /** What truncation drops is the rest of the list after the kept prefix. */
  lemma TopDropped(s: seq<Entry>)
    ensures multiset(s) - multiset(Top(s)) == multiset(s[|Top(s)|..])
  {
    assert s == Top(s) + s[|Top(s)|..];
  }

  /** Keeping a prefix of a sorted list keeps the best: no dropped entry
      scores more than any kept one. */
  lemma TopKeepsBest(s: seq<Entry>)
    requires SortedDesc(s)
    ensures forall x: Entry, j :: x in multiset(s) - multiset(Top(s)) && 0 <= j < |Top(s)| ==>
      x.score <= Top(s)[j].score
  {
    var t := Top(s);
    var m := |t|;
    TopDropped(s);
    forall x: Entry, j | x in multiset(s) - multiset(t) && 0 <= j < m
      ensures x.score <= t[j].score
    {
      SortedTail(s, m, x, j);
    }
  }

  /** Sorting the board with the new entry appended is inserting the entry
      into the sorted board, right after the old entries scoring at least as
      much. */
  lemma SortWithEntry(board: seq<Entry>, entry: Entry)
    ensures var k := CountAtLeast(board, entry.score);
      && SortDesc(board + [entry]) == InsertDesc(SortDesc(board), entry)
      && SortDesc(board + [entry])[k] == entry
      && SortDesc(board + [entry])[..k] == SortDesc(board)[..k]
  {
    var all := board + [entry];
    assert all[..|board|] == board;
    SortSorted(board);
    SortCount(board, entry.score);
    InsertPosition(SortDesc(board), entry);
  }

  /** Truncating after the sort drops only entries that score no more than
      every entry kept. */
  lemma SaveKeepsBest(board: seq<Entry>, entry: Entry)
    ensures var r := Top(SortDesc(board + [entry]));
      forall x: Entry, j :: x in multiset(board) + multiset{entry} - multiset(r) && 0 <= j < |r| ==>
        x.score <= r[j].score
  {
    var all := board + [entry];
    SortSorted(all);
    SortPermutation(all);
    assert multiset(all) == multiset(board) + multiset{entry};
    TopKeepsBest(SortDesc(all));
  }

  /** The board after appending, sorting and truncating, for any new entry. */
  lemma SaveSpec(board: seq<Entry>, entry: Entry)
    ensures var r := Top(SortDesc(board + [entry]));
      var k := CountAtLeast(board, entry.score);
      && |r| == (if |board| + 1 < MaxHighScores then |board| + 1 else MaxHighScores)
      && SortedDesc(r)
      && multiset(r) <= multiset(board) + multiset{entry}
      && (k < MaxHighScores ==> r[k] == entry)
      && (k >= MaxHighScores ==> r == Top(SortDesc(board)))
  {
    var all := board + [entry];
    SortSorted(all);
    SortPermutation(all);
    TopOfSorted(SortDesc(all));
    SortWithEntry(board, entry);
    var k := CountAtLeast(board, entry.score);
    if k >= MaxHighScores {
      var sorted, oldSorted := SortDesc(all), SortDesc(board);
      assert Top(sorted) == sorted[..k][..MaxHighScores];
      assert Top(oldSorted) == oldSorted[..k][..MaxHighScores];
    }
  }

  /** What saving a score does to the board: at most MaxHighScores entries
      remain, sorted from highest to lowest, all taken from the old board and
      the new entry, and none left out scores more than one kept; the new
      entry sits right after every old entry scoring at least as much, so it
      is kept exactly when fewer than MaxHighScores old entries reach its
      score; a blank name is stored as "Player". */
  lemma AddScoreSpec(board: seq<Entry>, rawName: string, finalScore: int)
    ensures var r := AddScore(board, rawName, finalScore);
      var entry := Entry(PlayerName(rawName), finalScore);
      var k := CountAtLeast(board, finalScore);
      && |r| == (if |board| + 1 < MaxHighScores then |board| + 1 else MaxHighScores)
      && SortedDesc(r)
      && multiset(r) <= multiset(board) + multiset{entry}
      && (forall x: Entry, j :: x in multiset(board) + multiset{entry} - multiset(r) && 0 <= j < |r| ==>
            x.score <= r[j].score)
      && (k < MaxHighScores ==> r[k] == entry)
      && (k >= MaxHighScores ==> r == Top(SortDesc(board)))
      && (AllSpace(rawName) ==> entry.name == "Player")
  {
    PlayerNameSpec(rawName);
    SaveSpec(board, Entry(PlayerName(rawName), finalScore));
    SaveKeepsBest(board, Entry(PlayerName(rawName), finalScore));
  }
}
