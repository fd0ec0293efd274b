/**
 * The page's global state and its handlers, as they run: `wordInputs`,
 * `activeWordIndex` and `currentCellPosition` are fields updated in place,
 * and each handler is proved to move the page from one session to the one
 * the `Session` functions describe.
 */
module Engine {
  import opened Wrappers
  import opened JsText
  import opened Puzzle
  import opened IntersectionIndex
  import opened AnswerState
  import opened Session

  class Game {
    const words: seq<Word>
    const index: Index
    var inputs: Inputs
    var active: Option<nat>
    var cursor: nat

    ghost predicate Valid()
      reads this
    {
      Ok(words, index, State())
    }

    function State(): State
      reads this
    {
      Session.State(inputs, active, cursor)
    }

    /** Page start-up: build the intersection index, all answers empty, no word selected. */
    constructor (p: PuzzleDef)
      requires WellFormed(p)
      ensures Valid() && PuzzleOk(words, index)
      ensures words == p.words && index == IndexOf(p.intersections)
      ensures State() == Initial(|p.words|)
    {
      var m := BuildIntersectionMap(p.intersections);
      IndexWithinPuzzle(p);
      IndexWithinInRange(m, p.words);
      words := p.words;
      index := m;
      inputs := seq(|p.words|, _ => "");
      active := None;
      cursor := 0;
    }

    /**
     * `handleCellIntersection(w, p, letter)`: walk the connected list of the
     * cell, skip the cell itself, and write (non-blank letter, padding the
     * target, only where it differs) or clear (blank letter, only where the
     * target string reaches).
     */
    method HandleCellIntersection(w: nat, p: nat, letter: char)
      requires Valid()
      modifies this
      ensures Valid()
      ensures inputs == Intersect(old(inputs), index, Cell(w, p), letter)
      ensures active == old(active) && cursor == old(cursor)
    {
      var info := GetIntersectionInfo(index, Cell(w, p));
      if info.None? {
        return;
      }
      var conn := info.value.connected;
      assert InRange(inputs, conn);
      var i := 0;
      while i < |conn|
        invariant i <= |conn|
        invariant |inputs| == |words| && active == old(active) && cursor == old(cursor)
        invariant inputs == Propagate(old(inputs), Cell(w, p), conn[..i], letter)
      {
        var t := conn[i];
        if t != Cell(w, p) {
          var v := inputs[t.word];
          if !IsWhitespace(letter) {
            if |v| <= t.pos {
              v := PadEnd(v, t.pos + 1);
            }
            if v[t.pos] != letter {
              v := v[..t.pos] + [letter] + v[t.pos + 1..];
              inputs := inputs[t.word := v];
            }
          } else if |v| > t.pos {
            v := v[..t.pos] + [' '] + v[t.pos + 1..];
            inputs := inputs[t.word := v];
          }
        }
        assert conn[..i + 1][..i] == conn[..i];
        i := i + 1;
      }
      assert conn[..i] == conn;
    }

    /** `handleCellInput(w, p, letter)`: pad, replace the character at `p`, then propagate. */
    method HandleCellInput(w: nat, p: nat, letter: char)
      requires Valid() && w < |words|
      modifies this
      ensures Valid()
      ensures State() == Input(index, old(State()), w, p, letter)
    {
      var v := inputs[w];
      if p >= |v| {
        v := PadEnd(v, p + 1);
      }
      v := v[..p] + [letter] + v[p + 1..];
      inputs := inputs[w := v];
      HandleCellIntersection(w, p, letter);
    }

    /** `focusGridCell(w, p)`. */
    method FocusGridCell(w: nat, p: nat)
      requires Valid()
      modifies this
      ensures Valid()
      ensures State() == Focus(words, old(State()), w, p)
    {
      if CellOk(words, Cell(w, p)) {
        if active == Some(w) {
          cursor := p;
        }
      }
    }

    /** `handleDelete(w, p)`: blank the cell if the string reaches it, then propagate a blank. */
    method HandleDelete(w: nat, p: nat)
      requires Valid() && w < |words|
      modifies this
      ensures Valid()
      ensures State() == Delete(words, index, old(State()), w, p)
    {
      if CellOk(words, Cell(w, p)) {
        var v := inputs[w];
        if p < |v| {
          v := v[..p] + [' '] + v[p + 1..];
        }
        inputs := inputs[w := v];
        HandleCellIntersection(w, p, ' ');
      }
    }

    /** `handleBackspace(w, p)`: as `handleDelete`, then focus the previous cell when `p > 0`. */
    method HandleBackspace(w: nat, p: nat)
      requires Valid() && w < |words|
      modifies this
      ensures Valid()
      ensures State() == Backspace(words, index, old(State()), w, p)
    {
      HandleDelete(w, p);
      if p > 0 {
        FocusGridCell(w, p - 1);
      }
    }

    /** `findFirstEmptyCell(w)`: scan the current string for its first space. */
    method FindFirstEmptyCell(w: nat) returns (r: nat)
      requires w < |inputs|
      ensures r == FirstEmpty(inputs[w])
    {
      var v := inputs[w];
      var i := 0;
      while i < |v|
        invariant i <= |v|
        invariant forall j :: 0 <= j < i ==> v[j] != ' '
      {
        if v[i] == ' ' {
          return i;
        }
        i := i + 1;
      }
      return 0;
    }

    /** `selectWord(w)`. */
    method SelectWord(w: nat)
      requires Valid() && w < |words|
      modifies this
      ensures Valid()
      ensures State() == Session.SelectWord(words, old(State()), w)
    {
      active := Some(w);
      var target := cursor;
      if target >= |words[w].answer| {
        target := FindFirstEmptyCell(w);
      }
      FocusGridCell(w, target);
    }

    /** A letter at the cursor: `handleCellInput`, then advance if not on the last cell. */
    method TypeLetter(letter: char)
      requires Valid() && active.Some?
      modifies this
      ensures Valid()
      ensures State() == Session.TypeLetter(words, index, old(State()), letter)
    {
      var w := active.value;
      var p := cursor;
      HandleCellInput(w, p, letter);
      if p < |words[w].answer| - 1 {
        FocusGridCell(w, p + 1);
      }
    }

    /** The document `keydown` listener. */
    method KeyDown(key: string, editableFocused: bool)
      requires Valid()
      modifies this
      ensures Valid()
      ensures State() == Session.KeyDown(words, index, old(State()), key, editableFocused)
    {
      if editableFocused || active.None? {
        return;
      }
      var w := active.value;
      var p := cursor;
      if key == "ArrowLeft" && p > 0 {
        FocusGridCell(w, p - 1);
      } else if key == "ArrowRight" && p < |words[w].answer| - 1 {
        FocusGridCell(w, p + 1);
      } else if key == "ArrowUp" {
        if w > 0 {
          SelectWord(w - 1);
        }
      } else if key == "ArrowDown" {
        if w < |words| - 1 {
          SelectWord(w + 1);
        }
      } else if key == "Escape" {
        HandleCellInput(w, p, ' ');
      } else if key == "Backspace" {
        HandleBackspace(w, p);
      } else if key == "Delete" {
        HandleDelete(w, p);
      } else if |key| == 1 && IsAsciiLetter(key[0]) {
        TypeLetter(UpperChar(key[0]));
      }
    }

    /** A click on the on-screen keyboard. */
    method VirtualKey(k: VirtualKey)
      requires Valid()
      modifies this
      ensures Valid()
      ensures State() == Virtual(words, index, old(State()), k)
    {
      match k
      case LetterKey(c) =>
        if active.Some? {
          TypeLetter(c);
        }
      case ActionKey(a) =>
        if a == "backspace" {
          if active.Some? {
            HandleBackspace(active.value, cursor);
          }
        } else if a == "clear" {
          if active.Some? {
            HandleDelete(active.value, cursor);
          }
        } else if a == "done" {
          active := None;
          cursor := 0;
        }
    }

    /** The Clear button: every answer back to "", no word selected, cursor 0. */
    method ClearButton()
      requires Valid()
      modifies this
      ensures Valid()
      ensures State() == Initial(|words|)
    {
      var i := 0;
      while i < |words|
        invariant i <= |words| && |inputs| == |words|
        invariant forall j :: 0 <= j < i ==> inputs[j] == ""
      {
        inputs := inputs[i := ""];
        i := i + 1;
      }
      active := None;
      cursor := 0;
    }

    /** `loadFromStorage`, given what was read and parsed (`None`: nothing usable). */
    method LoadFromStorage(saved: Option<Inputs>)
      requires Valid()
      modifies this
      ensures Valid()
      ensures State() == Load(old(State()), saved, |words|)
    {
      if saved.Some? && |saved.value| == |words| {
        inputs := saved.value;
      }
    }

    /** The inner loop of `propagateLetter`: pad and write `letter` into every cell of `conn`, in order. */
    method OverwriteConnected(conn: seq<Cell>, letter: char)
      requires Valid() && InRange(inputs, conn)
      modifies this
      ensures Valid() && active == old(active) && cursor == old(cursor)
      ensures inputs == Overwrite(old(inputs), conn, letter)
    {
      var j := 0;
      while j < |conn|
        invariant j <= |conn| && |inputs| == |words|
        invariant active == old(active) && cursor == old(cursor)
        invariant inputs == Overwrite(old(inputs), conn[..j], letter)
      {
        var t := conn[j];
        var v := inputs[t.word];
        if |v| <= t.pos {
          v := PadEnd(v, t.pos + 1);
        }
        v := v[..t.pos] + [letter] + v[t.pos + 1..];
        inputs := inputs[t.word := v];
        assert conn[..j + 1][..j] == conn[..j];
        j := j + 1;
      }
      assert conn[..j] == conn;
    }

    /** One step of `propagateLetter`: position `pos` pushes its letter to the cells it reaches. */
    method PushLetterAt(w: nat, upper: string, pos: nat)
      requires Valid()
      modifies this
      ensures Valid() && active == old(active) && cursor == old(cursor)
      ensures var conn := Reach(index, w, upper, pos);
        inputs == if conn == [] then old(inputs) else Overwrite(old(inputs), conn, upper[pos])
    {
      var info := GetIntersectionInfo(index, Cell(w, pos));
      if info.Some? && pos < |upper| && !IsWhitespace(upper[pos]) {
        OverwriteConnected(info.value.connected, upper[pos]);
      }
    }

    /**
     * `propagateLetter(w, value)`, which nothing on the page calls: for each
     * position of the answer that has an index entry and a non-blank
     * upper-cased letter in `value`, overwrite every connected cell with it.
     */
    method PropagateLetter(w: nat, value: string)
      requires Valid() && w < |words|
      modifies this
      ensures Valid() && active == old(active) && cursor == old(cursor)
      ensures inputs == AnswerState.PropagateLetter(old(inputs), index, w, ToUpper(value), |words[w].answer|)
    {
      var upper := ToUpper(value);
      var n := |words[w].answer|;
      var pos := 0;
      while pos < n
        invariant pos <= n
        invariant Valid() && active == old(active) && cursor == old(cursor)
        invariant inputs == AnswerState.PropagateLetter(old(inputs), index, w, upper, pos)
      {
        PushLetterAt(w, upper, pos);
        pos := pos + 1;
      }
    }
  }
}
