/**
 * The arithmetic behind the page layout and the storage key: the ghost cells
 * that line the solution letters up in one column, the slots of the solution
 * row, and the `localStorage` key derived from the puzzle title.
 */
module Layout {
  import opened JsText
  import opened Puzzle

  // ----- Ghost cells -----

  /** `Math.max(...words.map(w => w.solutionIndex))` for a non-empty word list. */
  function MaxSolutionIndex(words: seq<Word>): (r: nat)
    requires |words| > 0
    ensures forall i :: 0 <= i < |words| ==> words[i].solutionIndex <= r
    ensures exists i :: 0 <= i < |words| && words[i].solutionIndex == r
  {
    if |words| == 1 then words[0].solutionIndex
    else
      var pre := words[..|words| - 1];
      var m := MaxSolutionIndex(pre);
      var last := words[|words| - 1].solutionIndex;
      assert forall i :: 0 <= i < |pre| ==> pre[i] == words[i];
      if last > m then last else m
  }

  /** `maxIndex - word.solutionIndex`: how many ghost cells precede word `i`'s row. */
  function GhostCount(words: seq<Word>, i: nat): int
    requires i < |words|
  {
    MaxSolutionIndex(words) - words[i].solutionIndex
  }

  /**
   * Ghost counts are never negative, and after its ghosts every row reaches
   * its solution letter in the same column, the column of the largest
   * `solutionIndex` (whose row has no ghosts).
   */
  lemma SolutionColumn(words: seq<Word>, i: nat, j: nat)
    requires i < |words| && j < |words|
    ensures GhostCount(words, i) >= 0
    ensures GhostCount(words, i) + words[i].solutionIndex == GhostCount(words, j) + words[j].solutionIndex
    ensures exists k :: 0 <= k < |words| && GhostCount(words, k) == 0
  {
    var k :| 0 <= k < |words| && words[k].solutionIndex == MaxSolutionIndex(words);
    assert GhostCount(words, k) == 0;
  }

  // ----- The solution row -----

  /** A slot of the solution row: the letter of a word, or a spacer. */
  datatype Slot = Letter(word: nat) | Spacer

  /** The solution row as built: one letter slot per word, with a spacer after each word marked `breakAfter`. */
  function SolutionRow(words: seq<Word>): seq<Slot>
  {
    if words == [] then []
    else
      SolutionRow(words[..|words| - 1])
        + [Letter(|words| - 1)]
        + (if words[|words| - 1].breakAfter then [Spacer] else [])
  }

  function CountBreaks(words: seq<Word>): nat
  {
    if words == [] then 0
    else CountBreaks(words[..|words| - 1]) + (if words[|words| - 1].breakAfter then 1 else 0)
  }

  /** The letter slots of a row, in order. */
  function Letters(row: seq<Slot>): seq<nat>
  {
    if row == [] then []
    else Letters(row[..|row| - 1]) + (match row[|row| - 1] case Letter(w) => [w] case Spacer => [])
  }

  function CountSpacers(row: seq<Slot>): nat
  {
    if row == [] then 0
    else CountSpacers(row[..|row| - 1]) + (if row[|row| - 1].Spacer? then 1 else 0)
  }

  lemma {:induction false} LettersAppend(a: seq<Slot>, b: seq<Slot>)
    ensures Letters(a + b) == Letters(a) + Letters(b)
    ensures CountSpacers(a + b) == CountSpacers(a) + CountSpacers(b)
  {
    if b == [] {
      assert a + b == a;
    } else {
      LettersAppend(a, b[..|b| - 1]);
      assert (a + b)[..|a + b| - 1] == a + b[..|b| - 1];
    }
  }

  /** The slots one word adds to the row: its letter, then a spacer if it breaks after. */
  lemma WordSlots(n: nat, brk: bool)
    ensures var tail := [Letter(n)] + (if brk then [Spacer] else []);
      Letters(tail) == [n] && CountSpacers(tail) == (if brk then 1 else 0)
  {
    var one := [Letter(n)];
    assert one[..0] == [];
    assert Letters(one) == [n] && CountSpacers(one) == 0;
    if brk {
      var two := one + [Spacer];
      assert two[..1] == one;
      assert Letters(two) == Letters(one);
      assert CountSpacers(two) == 1;
    } else {
      assert one + [] == one;
    }
  }

  /**
   * The solution row holds one letter slot per word, in word order, and as
   * many spacers as there are words marked `breakAfter`.
   */
  lemma {:induction false} SolutionRowShape(words: seq<Word>)
    ensures |Letters(SolutionRow(words))| == |words|
    ensures forall i :: 0 <= i < |words| ==> Letters(SolutionRow(words))[i] == i
    ensures CountSpacers(SolutionRow(words)) == CountBreaks(words)
    ensures |SolutionRow(words)| == |words| + CountBreaks(words)
  {
    if words != [] {
      var n := |words| - 1;
      var pre := words[..n];
      var tail := [Letter(n)] + (if words[n].breakAfter then [Spacer] else []);
      SolutionRowShape(pre);
      LettersAppend(SolutionRow(pre), tail);
      WordSlots(n, words[n].breakAfter);
      assert SolutionRow(words) == SolutionRow(pre) + tail;
    }
  }

  // ----- Storage key -----

  /** `s.replace(/\s+/g, "-")`: every maximal run of whitespace becomes one dash. */
  function DashRuns(s: string): (r: string)
    ensures NoWhitespace(r)
    ensures |r| <= |s|
    decreases |s|
  {
    if s == [] then []
    else if IsWhitespace(s[0]) then
      var n := LeadingWhitespace(s);
      "-" + DashRuns(s[n..])
    else [s[0]] + DashRuns(s[1..])
  }

  const KeyPrefix: string := "filippine-puzzle-"

  /** `STORAGE_KEY`: the prefix, then the title lower-cased with whitespace runs dashed. */
  function StorageKey(title: string): (r: string)
    ensures |r| >= |KeyPrefix| && r[..|KeyPrefix|] == KeyPrefix
    ensures NoWhitespace(r)
  {
    KeyPrefix + DashRuns(ToLower(title))
  }

  /** A string without whitespace is left as it is. */
  lemma {:induction false} DashRunsIdentity(s: string)
    requires NoWhitespace(s)
    ensures DashRuns(s) == s
  {
    if s != [] {
      DashRunsIdentity(s[1..]);
    }
  }

  /**
   * A whitespace run between a whitespace-free part and a part that does not
   * start with whitespace becomes exactly one dash.
   */
  lemma {:induction false} DashRunsJoin(a: string, ws: string, b: string)
    requires NoWhitespace(a) && |ws| > 0 && AllWhitespace(ws) && (b == [] || !IsWhitespace(b[0]))
    ensures DashRuns(a + ws + b) == a + "-" + DashRuns(b)
  {
    if a == [] {
      assert a + ws + b == ws + b;
      LeadingRun(ws, b);
      assert (ws + b)[|ws|..] == b;
    } else {
      assert (a + ws + b)[1..] == a[1..] + ws + b;
      DashRunsJoin(a[1..], ws, b);
    }
  }
}
