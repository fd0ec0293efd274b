/**
 * The session: the answer state together with the active word
 * (`activeWordIndex`, `null` when no word is selected) and the cursor
 * (`currentCellPosition`), and every handler that moves between sessions:
 * focusing a cell, selecting a word, the keyboard, the on-screen keyboard,
 * the Clear button and loading saved answers.
 */
module Session {
  import opened Wrappers
  import opened JsText
  import opened Puzzle
  import opened IntersectionIndex
  import opened AnswerState

  datatype State = State(inputs: Inputs, active: Option<nat>, cursor: nat)

  /** The session at page load and after the Clear button: empty answers, no word selected, cursor 0. */
  function Initial(n: nat): State
  {
    State(EmptyInputs(n), None, 0)
  }

  /** What every handler needs: one answer per word, an index naming existing words, an existing active word. */
  predicate Ok(words: seq<Word>, index: Index, s: State)
  {
    && |s.inputs| == |words|
    && IndexInRange(index, |words|)
    && (s.active.Some? ==> s.active.value < |words|)
  }

  /** The words are well formed and the index only mentions grid cells. */
  predicate PuzzleOk(words: seq<Word>, index: Index)
  {
    && (forall w :: 0 <= w < |words| ==> WordOk(words[w]))
    && IndexWithin(index, words)
  }

  /** With a word selected the cursor is a cell of that word; with none it is 0. */
  predicate CursorOk(words: seq<Word>, s: State)
  {
    match s.active
    case None => s.cursor == 0
    case Some(w) => w < |words| && s.cursor < |words[w].answer|
  }

  /** The invariant of an undisturbed session: answers fit the grid and the cursor is on a cell. */
  predicate SessionOk(words: seq<Word>, s: State)
  {
    Fits(words, s.inputs) && CursorOk(words, s)
  }

  lemma IndexWithinInRange(index: Index, words: seq<Word>)
    requires IndexWithin(index, words)
    ensures IndexInRange(index, |words|)
  {
  }

  // ----- Cursor -----

  /**
   * `findFirstEmptyCell`: the first position of the current string that
   * holds a space, or 0 when there is none; positions past the end of the
   * string are never looked at.
   */
  function FirstEmpty(v: string): (r: nat)
    ensures (exists i :: 0 <= i < |v| && v[i] == ' ') ==>
      r < |v| && v[r] == ' ' && forall j :: 0 <= j < r ==> v[j] != ' '
    ensures (forall i :: 0 <= i < |v| ==> v[i] != ' ') ==> r == 0
  {
    match SpaceFrom(v, 0)
    case None => 0
    case Some(i) => i
  }

  /** The first space of `v` at or after `i`. */
  function SpaceFrom(v: string, i: nat): (r: Option<nat>)
    requires i <= |v|
    ensures r.None? <==> forall j :: i <= j < |v| ==> v[j] != ' '
    ensures r.Some? ==> i <= r.value < |v| && v[r.value] == ' ' && forall j :: i <= j < r.value ==> v[j] != ' '
    decreases |v| - i
  {
    if i == |v| then None
    else if v[i] == ' ' then Some(i)
    else SpaceFrom(v, i + 1)
  }

  /**
   * `focusGridCell(w, p)`: nothing happens unless the cell exists; the cursor
   * moves only when `w` is the active word.
   */
  function Focus(words: seq<Word>, s: State, w: nat, p: nat): State
  {
    if CellOk(words, Cell(w, p)) && s.active == Some(w) then s.(cursor := p) else s
  }

  /**
   * `selectWord(w)`: `w` becomes the active word; the cursor is kept when it
   * is a position of `w`, and otherwise moves to `findFirstEmptyCell(w)` if
   * that cell exists.
   */
  function SelectWord(words: seq<Word>, s: State, w: nat): (r: State)
    requires w < |words| && |s.inputs| == |words|
    ensures r.inputs == s.inputs && r.active == Some(w)
    ensures s.cursor < |words[w].answer| ==> r.cursor == s.cursor
  {
    var s1 := s.(active := Some(w));
    var target := if s.cursor < |words[w].answer| then s.cursor else FirstEmpty(s.inputs[w]);
    Focus(words, s1, w, target)
  }

  /**
   * Selecting a word whose answer fits puts the cursor on one of its cells:
   * the old position if it is one, else the first blank cell, else the first cell.
   */
  lemma SelectWordCursor(words: seq<Word>, s: State, w: nat)
    requires w < |words| && |s.inputs| == |words|
    requires WordOk(words[w]) && |s.inputs[w]| <= |words[w].answer|
    ensures CursorOk(words, SelectWord(words, s, w))
    ensures s.cursor >= |words[w].answer| ==> SelectWord(words, s, w).cursor == FirstEmpty(s.inputs[w])
  {
  }

  // ----- Edits -----

  /** `handleCellInput(w, p, letter)`: the answer state becomes `Edit`, the cursor stays. */
  function Input(index: Index, s: State, w: nat, p: nat, letter: char): State
    requires w < |s.inputs| && IndexInRange(index, |s.inputs|)
  {
    s.(inputs := Edit(s.inputs, index, w, p, letter))
  }

  /** `handleDelete(w, p)`: erase the cell, but only if it exists on the page. */
  function Delete(words: seq<Word>, index: Index, s: State, w: nat, p: nat): State
    requires Ok(words, index, s) && w < |words|
  {
    if CellOk(words, Cell(w, p)) then s.(inputs := Erase(s.inputs, index, w, p)) else s
  }

  /** `handleBackspace(w, p)`: like Delete, then step back one cell when `p > 0`. */
  function Backspace(words: seq<Word>, index: Index, s: State, w: nat, p: nat): State
    requires Ok(words, index, s) && w < |words|
  {
    var s1 := Delete(words, index, s, w, p);
    if p > 0 then Focus(words, s1, w, p - 1) else s1
  }

  /** A letter typed at the cursor: `handleCellInput`, then advance unless on the last cell. */
  function TypeLetter(words: seq<Word>, index: Index, s: State, letter: char): State
    requires Ok(words, index, s) && s.active.Some?
  {
    var w := s.active.value;
    var p := s.cursor;
    var s1 := Input(index, s, w, p, letter);
    if p < |words[w].answer| - 1 then Focus(words, s1, w, p + 1) else s1
  }

  // ----- Keyboard -----

  /**
   * The document `keydown` listener. `editableFocused` says that a
   * content-editable grid cell has the focus, in which case the cell's own
   * handler takes the key and this listener does nothing.
   */
  function KeyDown(words: seq<Word>, index: Index, s: State, key: string, editableFocused: bool): (r: State)
    requires Ok(words, index, s)
    ensures Ok(words, index, r)
    ensures editableFocused || s.active.None? ==> r == s
  {
    if editableFocused || s.active.None? then s
    else
      var w := s.active.value;
      var p := s.cursor;
      if key == "ArrowLeft" && p > 0 then Focus(words, s, w, p - 1)
      else if key == "ArrowRight" && p < |words[w].answer| - 1 then Focus(words, s, w, p + 1)
      else if key == "ArrowUp" then (if w > 0 then SelectWord(words, s, w - 1) else s)
      else if key == "ArrowDown" then (if w < |words| - 1 then SelectWord(words, s, w + 1) else s)
      else if key == "Escape" then Input(index, s, w, p, ' ')
      else if key == "Backspace" then Backspace(words, index, s, w, p)
      else if key == "Delete" then Delete(words, index, s, w, p)
      else if |key| == 1 && IsAsciiLetter(key[0]) then TypeLetter(words, index, s, UpperChar(key[0]))
      else s
  }

  /** A key of the on-screen keyboard: a letter, or an action name. */
  datatype VirtualKey = LetterKey(letter: char) | ActionKey(action: string)

  /**
   * The on-screen keyboard: a letter is written as given (not upper-cased)
   * and advances; "backspace" and "clear" act like Backspace and Delete;
   * "done" deselects the word; everything needs an active word except "done".
   */
  function Virtual(words: seq<Word>, index: Index, s: State, k: VirtualKey): (r: State)
    requires Ok(words, index, s)
    ensures Ok(words, index, r)
  {
    match k
    case LetterKey(c) => if s.active.None? then s else TypeLetter(words, index, s, c)
    case ActionKey(a) =>
      if a == "backspace" then (if s.active.None? then s else Backspace(words, index, s, s.active.value, s.cursor))
      else if a == "clear" then (if s.active.None? then s else Delete(words, index, s, s.active.value, s.cursor))
      else if a == "done" then s.(active := None, cursor := 0)
      else s
  }

  /** `loadFromStorage`: a saved array replaces the answers only when it has one entry per word. */
  function Load(s: State, saved: Option<Inputs>, n: nat): (r: State)
    ensures r.active == s.active && r.cursor == s.cursor
    ensures r.inputs == (if saved.Some? && |saved.value| == n then saved.value else s.inputs)
  {
    if saved.Some? && |saved.value| == n then s.(inputs := saved.value) else s
  }

  /**
   * A load that replaces the answers keeps the session invariant exactly when
   * the stored answers fit their words; active word and cursor are untouched.
   */
  lemma LoadKeepsSession(words: seq<Word>, s: State, saved: Option<Inputs>)
    requires SessionOk(words, s)
    ensures saved.Some? && |saved.value| == |words| ==>
      (SessionOk(words, Load(s, saved, |words|)) <==> Fits(words, saved.value))
    ensures !(saved.Some? && |saved.value| == |words|) ==> SessionOk(words, Load(s, saved, |words|))
  {
  }

  // ----- Events -----

  /** The user's and the page's actions on the session. */
  datatype Event =
    | Key(key: string, editableFocused: bool)
    | OnScreen(vkey: VirtualKey)
    | Click(word: nat)                // a clue or a grid row: `selectWord`
    | ClearButton
    | Loaded(saved: Option<Inputs>)  // `None`: nothing usable was stored

  predicate EventOk(words: seq<Word>, e: Event)
  {
    e.Click? ==> e.word < |words|
  }

  function Step(words: seq<Word>, index: Index, s: State, e: Event): (r: State)
    requires Ok(words, index, s) && EventOk(words, e)
    ensures Ok(words, index, r)
  {
    match e
    case Key(key, focused) => KeyDown(words, index, s, key, focused)
    case OnScreen(k) => Virtual(words, index, s, k)
    case Click(w) => SelectWord(words, s, w)
    case ClearButton => Initial(|words|)
    case Loaded(saved) => Load(s, saved, |words|)
  }

  function Run(words: seq<Word>, index: Index, s: State, events: seq<Event>): (r: State)
    requires Ok(words, index, s) && forall e :: e in events ==> EventOk(words, e)
    ensures Ok(words, index, r)
  {
    if events == [] then s
    else
      assert forall e :: e in events[..|events| - 1] ==> e in events;
      Step(words, index, Run(words, index, s, events[..|events| - 1]), events[|events| - 1])
  }

  /** A load that could have come from this page: every saved answer fits its word. */
  predicate FitsIfAccepted(words: seq<Word>, e: Event)
  {
    e.Loaded? && e.saved.Some? && |e.saved.value| == |words| ==> Fits(words, e.saved.value)
  }

  // ----- The session invariant -----

  lemma EditKeepsSession(words: seq<Word>, index: Index, s: State, w: nat, p: nat, letter: char)
    requires PuzzleOk(words, index) && Ok(words, index, s) && SessionOk(words, s)
    requires CellOk(words, Cell(w, p))
    ensures SessionOk(words, Input(index, s, w, p, letter))
    ensures SessionOk(words, Delete(words, index, s, w, p))
  {
    EditKeepsFits(words, s.inputs, index, w, p, letter);
  }

  lemma BackspaceKeepsSession(words: seq<Word>, index: Index, s: State, w: nat, p: nat)
    requires PuzzleOk(words, index) && Ok(words, index, s) && SessionOk(words, s)
    requires s.active == Some(w) && p == s.cursor
    ensures SessionOk(words, Backspace(words, index, s, w, p))
  {
    EditKeepsSession(words, index, s, w, p, ' ');
  }

  lemma TypeLetterKeepsSession(words: seq<Word>, index: Index, s: State, letter: char)
    requires PuzzleOk(words, index) && Ok(words, index, s) && SessionOk(words, s) && s.active.Some?
    ensures SessionOk(words, TypeLetter(words, index, s, letter))
  {
    EditKeepsSession(words, index, s, s.active.value, s.cursor, letter);
  }

  /**
   * The keyboard keeps the session invariant: the answers keep fitting the
   * grid and the cursor stays on a cell of the active word.
   */
  lemma KeyDownKeepsSession(words: seq<Word>, index: Index, s: State, key: string, editableFocused: bool)
    requires PuzzleOk(words, index) && Ok(words, index, s) && SessionOk(words, s)
    ensures SessionOk(words, KeyDown(words, index, s, key, editableFocused))
  {
    if !editableFocused && s.active.Some? {
      var w := s.active.value;
      var p := s.cursor;
      if key == "ArrowLeft" && p > 0 {
      } else if key == "ArrowRight" && p < |words[w].answer| - 1 {
      } else if key == "ArrowUp" {
        if w > 0 { SelectWordCursor(words, s, w - 1); }
      } else if key == "ArrowDown" {
        if w < |words| - 1 { SelectWordCursor(words, s, w + 1); }
      } else if key == "Escape" {
        EditKeepsSession(words, index, s, w, p, ' ');
      } else if key == "Backspace" {
        BackspaceKeepsSession(words, index, s, w, p);
      } else if key == "Delete" {
        EditKeepsSession(words, index, s, w, p, ' ');
      } else if |key| == 1 && IsAsciiLetter(key[0]) {
        TypeLetterKeepsSession(words, index, s, UpperChar(key[0]));
      }
    }
  }

  /** The on-screen keyboard keeps the session invariant too. */
  lemma VirtualKeepsSession(words: seq<Word>, index: Index, s: State, k: VirtualKey)
    requires PuzzleOk(words, index) && Ok(words, index, s) && SessionOk(words, s)
    ensures SessionOk(words, Virtual(words, index, s, k))
  {
    if s.active.Some? {
      var w := s.active.value;
      match k
      case LetterKey(c) => TypeLetterKeepsSession(words, index, s, c);
      case ActionKey(a) =>
        if a == "backspace" {
          BackspaceKeepsSession(words, index, s, w, s.cursor);
        } else if a == "clear" {
          EditKeepsSession(words, index, s, w, s.cursor, ' ');
        }
    }
  }

  /**
   * Every event keeps the session invariant, except a load of answers that
   * do not fit the grid (which this page never saves).
   */
  lemma StepKeepsSession(words: seq<Word>, index: Index, s: State, e: Event)
    requires PuzzleOk(words, index) && Ok(words, index, s) && SessionOk(words, s)
    requires EventOk(words, e) && FitsIfAccepted(words, e)
    ensures SessionOk(words, Step(words, index, s, e))
  {
    match e
    case Key(key, focused) => KeyDownKeepsSession(words, index, s, key, focused);
    case OnScreen(k) => VirtualKeepsSession(words, index, s, k);
    case Click(w) => SelectWordCursor(words, s, w);
    case ClearButton =>
    case Loaded(saved) =>
  }

  /** From the initial session, any run of such events keeps the invariant. */
  lemma {:induction false} RunKeepsSession(words: seq<Word>, index: Index, s: State, events: seq<Event>)
    requires PuzzleOk(words, index) && Ok(words, index, s) && SessionOk(words, s)
    requires forall e :: e in events ==> EventOk(words, e) && FitsIfAccepted(words, e)
    ensures SessionOk(words, Run(words, index, s, events))
  {
    if events != [] {
      var pre := events[..|events| - 1];
      assert forall e :: e in pre ==> e in events;
      RunKeepsSession(words, index, s, pre);
      StepKeepsSession(words, index, Run(words, index, s, pre), events[|events| - 1]);
    }
  }

  lemma InitialOk(words: seq<Word>, index: Index)
    requires PuzzleOk(words, index)
    ensures Ok(words, index, Initial(|words|)) && SessionOk(words, Initial(|words|))
  {
  }

  // ----- Cursor movement -----

  /**
   * Arrow keys: ArrowLeft moves back one cell unless on the first, ArrowRight
   * forward one cell unless on the last; neither touches the answers. Right
   * then Left returns to the same session.
   */
  lemma ArrowKeys(words: seq<Word>, index: Index, s: State)
    requires Ok(words, index, s) && CursorOk(words, s) && s.active.Some?
    ensures var r := KeyDown(words, index, s, "ArrowLeft", false);
      r.inputs == s.inputs && r.active == s.active && r.cursor == if s.cursor > 0 then s.cursor - 1 else s.cursor
    ensures var r := KeyDown(words, index, s, "ArrowRight", false);
      && r.inputs == s.inputs && r.active == s.active
      && r.cursor == if s.cursor < |words[s.active.value].answer| - 1 then s.cursor + 1 else s.cursor
    ensures s.cursor < |words[s.active.value].answer| - 1 ==>
      KeyDown(words, index, KeyDown(words, index, s, "ArrowRight", false), "ArrowLeft", false) == s
  {
  }

  /**
   * A typed letter is upper-cased and written at the cursor, and the cursor
   * advances unless it is on the last cell.
   */
  lemma TypedLetter(words: seq<Word>, index: Index, s: State, c: char)
    requires Ok(words, index, s) && CursorOk(words, s) && s.active.Some? && IsAsciiLetter(c)
    ensures var r := KeyDown(words, index, s, [c], false);
      && Holds(r.inputs, Cell(s.active.value, s.cursor), UpperChar(c))
      && r.active == s.active
      && r.cursor == if s.cursor < |words[s.active.value].answer| - 1 then s.cursor + 1 else s.cursor
  {
    EditEffect(s.inputs, index, s.active.value, s.cursor, UpperChar(c));
  }

  /** Backspace blanks the cursor's cell (when it holds a character) and steps back unless at the first cell. */
  lemma BackspaceKey(words: seq<Word>, index: Index, s: State)
    requires Ok(words, index, s) && CursorOk(words, s) && s.active.Some?
    ensures var r := KeyDown(words, index, s, "Backspace", false);
      && (s.cursor < |s.inputs[s.active.value]| ==> Holds(r.inputs, Cell(s.active.value, s.cursor), ' '))
      && r.active == s.active
      && r.cursor == if s.cursor > 0 then s.cursor - 1 else 0
  {
    EraseEffect(s.inputs, index, s.active.value, s.cursor);
  }

  /** Selecting a word keeps a cursor that fits it, and otherwise falls back to `findFirstEmptyCell`. */
  lemma ArrowUpDown(words: seq<Word>, index: Index, s: State)
    requires PuzzleOk(words, index) && Ok(words, index, s) && SessionOk(words, s) && s.active.Some?
    ensures var r := KeyDown(words, index, s, "ArrowDown", false);
      && r.inputs == s.inputs
      && r.active == Some(if s.active.value < |words| - 1 then s.active.value + 1 else s.active.value)
    ensures var r := KeyDown(words, index, s, "ArrowUp", false);
      && r.inputs == s.inputs
      && r.active == Some(if s.active.value > 0 then s.active.value - 1 else s.active.value)
  {
  }
}
