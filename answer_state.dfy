/**
 * The answer state (`wordInputs`: one string per word, starting empty and
 * space-padded on demand) and the value-level meaning of every edit:
 * writing one letter, blanking one letter, and the one-hop propagation of a
 * letter to the cells connected to the edited one.
 */
module AnswerState {
  import opened JsText
  import opened Puzzle
  import opened IntersectionIndex

  type Inputs = seq<string>

  /** `s.padEnd(n, " ")`. */
  function PadEnd(s: string, n: nat): (r: string)
    ensures |r| == if |s| < n then n else |s|
    ensures forall i :: 0 <= i < |r| ==> r[i] == if i < |s| then s[i] else ' '
  {
    if |s| < n then s + seq(n - |s|, _ => ' ') else s
  }

  /**
   * Pad with spaces up to `p + 1` characters if needed, then replace the
   * character at `p`: `before + letter + after`.
   */
  function SetAt(s: string, p: nat, c: char): (r: string)
    ensures |r| == if p < |s| then |s| else p + 1
    ensures r[p] == c
    ensures forall i :: 0 <= i < |r| && i != p ==> r[i] == if i < |s| then s[i] else ' '
  {
    var padded := if p >= |s| then PadEnd(s, p + 1) else s;
    padded[..p] + [c] + padded[p + 1..]
  }

  /** Blank position `p` with a space, but only when the string already reaches it. */
  function ClearAt(s: string, p: nat): (r: string)
    ensures |r| == |s|
    ensures p < |s| ==> r[p] == ' '
    ensures forall i :: 0 <= i < |s| && i != p ==> r[i] == s[i]
  {
    if p < |s| then SetAt(s, p, ' ') else s
  }

  /** Every cell lies in a word that has an entry in `x`. */
  predicate InRange(x: Inputs, cells: seq<Cell>)
  {
    forall c :: c in cells ==> c.word < |x|
  }

  /** Every connected list of the index names words that have an entry in `x`. */
  predicate IndexInRange(index: Index, n: nat)
  {
    forall k :: k in index ==> forall c :: c in index[k].connected ==> c.word < n
  }

  /** The cell holds `letter`. */
  predicate Holds(x: Inputs, c: Cell, letter: char)
  {
    c.word < |x| && c.pos < |x[c.word]| && x[c.word][c.pos] == letter
  }

  /** Every word is at most as long as its answer, as edits inside the grid keep it. */
  predicate Fits(words: seq<Word>, x: Inputs)
  {
    |x| == |words| && forall w :: 0 <= w < |x| ==> |x[w]| <= |words[w].answer|
  }

  /**
   * `r` differs from `x` only at the cells of `touched`: no word shrinks, a
   * word grows only up to a touched cell, and every other position keeps its
   * old character or is a padding space.
   */
  predicate Frame(x: Inputs, r: Inputs, touched: set<Cell>)
  {
    && |r| == |x|
    && forall w :: 0 <= w < |x| ==>
         && |x[w]| <= |r[w]|
         && (|x[w]| < |r[w]| ==> Cell(w, |r[w]| - 1) in touched)
         && forall i :: 0 <= i < |r[w]| && Cell(w, i) !in touched ==>
              r[w][i] == if i < |x[w]| then x[w][i] else ' '
  }

  /** The connected list of a cell; empty when `getIntersectionInfo` gives `null`. */
  function Connected(index: Index, c: Cell): seq<Cell>
  {
    if c in index then index[c].connected else []
  }

  /** The cells one propagation may write: the connected cells other than the source. */
  function Targets(src: Cell, conn: seq<Cell>): set<Cell>
  {
    set c | c in conn && c != src
  }

  /**
   * One iteration of `handleCellIntersection`'s loop: skip the source; a
   * non-blank letter is written (padding if needed) unless already present; a
   * blank letter clears the target only where the target string reaches it.
   */
  function PropagateStep(x: Inputs, src: Cell, t: Cell, letter: char): (r: Inputs)
    requires t.word < |x|
    ensures |r| == |x|
  {
    if t == src then x
    else if !IsWhitespace(letter) then
      var v := x[t.word];
      if t.pos < |v| && v[t.pos] == letter then x else x[t.word := SetAt(v, t.pos, letter)]
    else x[t.word := ClearAt(x[t.word], t.pos)]
  }

  /** The loop of `handleCellIntersection` over the connected list `conn`, in order. */
  function Propagate(x: Inputs, src: Cell, conn: seq<Cell>, letter: char): (r: Inputs)
    requires InRange(x, conn)
    ensures |r| == |x|
  {
    if conn == [] then x
    else
      var pre := conn[..|conn| - 1];
      assert forall c :: c in pre ==> c in conn;
      PropagateStep(Propagate(x, src, pre, letter), src, conn[|conn| - 1], letter)
  }

  /** `handleCellIntersection(w, p, letter)` as a function of the answer state. */
  function Intersect(x: Inputs, index: Index, src: Cell, letter: char): (r: Inputs)
    requires IndexInRange(index, |x|)
    ensures |r| == |x|
  {
    Propagate(x, src, Connected(index, src), letter)
  }

  /** `handleCellInput(w, p, letter)`: write the letter, then propagate it one hop. */
  function Edit(x: Inputs, index: Index, w: nat, p: nat, letter: char): (r: Inputs)
    requires w < |x| && IndexInRange(index, |x|)
    ensures |r| == |x|
  {
    Intersect(x[w := SetAt(x[w], p, letter)], index, Cell(w, p), letter)
  }

  /** The state change of `handleDelete` / `handleBackspace`: blank the cell, then propagate a blank. */
  function Erase(x: Inputs, index: Index, w: nat, p: nat): (r: Inputs)
    requires w < |x| && IndexInRange(index, |x|)
    ensures |r| == |x|
  {
    Intersect(x[w := ClearAt(x[w], p)], index, Cell(w, p), ' ')
  }

  /** The all-empty answer state of page load and of the Clear button. */
  function EmptyInputs(n: nat): (r: Inputs)
    ensures |r| == n && forall w :: 0 <= w < n ==> r[w] == ""
  {
    seq(n, _ => "")
  }

  // ----- Properties of single writes -----

  /** `handleCellInput`'s write, as a frame: only the edited cell changes, padding is spaces. */
  lemma SetAtFrame(x: Inputs, w: nat, p: nat, c: char)
    requires w < |x|
    ensures Frame(x, x[w := SetAt(x[w], p, c)], {Cell(w, p)})
    ensures Holds(x[w := SetAt(x[w], p, c)], Cell(w, p), c)
  {
  }

  lemma ClearAtFrame(x: Inputs, w: nat, p: nat)
    requires w < |x|
    ensures Frame(x, x[w := ClearAt(x[w], p)], {Cell(w, p)})
  {
  }

  lemma FrameTrans(x: Inputs, y: Inputs, z: Inputs, t1: set<Cell>, t2: set<Cell>)
    requires Frame(x, y, t1) && Frame(y, z, t2)
    ensures Frame(x, z, t1 + t2)
  {
  }

  // ----- Propagation -----

  lemma StepFrame(x: Inputs, src: Cell, t: Cell, letter: char)
    requires t.word < |x|
    ensures Frame(x, PropagateStep(x, src, t, letter), if t == src then {} else {t})
  {
  }

  /**
   * One hop only: propagation changes nothing outside the connected cells
   * (the source included), and a blank letter never lengthens a string.
   */
  lemma {:induction false} PropagateFrame(x: Inputs, src: Cell, conn: seq<Cell>, letter: char)
    requires InRange(x, conn)
    ensures Frame(x, Propagate(x, src, conn, letter), Targets(src, conn))
  {
    if conn != [] {
      var pre := conn[..|conn| - 1];
      var t := conn[|conn| - 1];
      assert forall c :: c in pre ==> c in conn;
      PropagateFrame(x, src, pre, letter);
      var y := Propagate(x, src, pre, letter);
      StepFrame(y, src, t, letter);
      FrameTrans(x, y, PropagateStep(y, src, t, letter), Targets(src, pre), if t == src then {} else {t});
      TargetsSnoc(src, conn);
    }
  }

  lemma TargetsSnoc(src: Cell, conn: seq<Cell>)
    requires conn != []
    ensures var t := conn[|conn| - 1];
      Targets(src, conn[..|conn| - 1]) + (if t == src then {} else {t}) == Targets(src, conn)
  {
    assert conn == conn[..|conn| - 1] + [conn[|conn| - 1]];
  }

  /** A blank letter never changes the length of a string. */
  lemma {:induction false} PropagateBlankLengths(x: Inputs, src: Cell, conn: seq<Cell>, letter: char)
    requires InRange(x, conn) && IsWhitespace(letter)
    ensures forall w :: 0 <= w < |x| ==> |Propagate(x, src, conn, letter)[w]| == |x[w]|
  {
    if conn != [] {
      var pre := conn[..|conn| - 1];
      assert forall c :: c in pre ==> c in conn;
      PropagateBlankLengths(x, src, pre, letter);
    }
  }

  /**
   * After propagation every connected cell other than the source agrees with
   * the letter: holds it (non-blank letter), or is blank or beyond the end of
   * its string (blank letter).
   */
  predicate Settled(x: Inputs, src: Cell, conn: seq<Cell>, letter: char)
    requires InRange(x, conn)
  {
    forall c :: c in conn && c != src ==>
      if IsWhitespace(letter) then c.pos < |x[c.word]| ==> x[c.word][c.pos] == ' '
      else c.pos < |x[c.word]| && x[c.word][c.pos] == letter
  }

  lemma StepKeepsSettled(x: Inputs, src: Cell, conn: seq<Cell>, t: Cell, letter: char)
    requires InRange(x, conn) && t.word < |x| && Settled(x, src, conn, letter)
    ensures Settled(PropagateStep(x, src, t, letter), src, conn + [t], letter)
  {
    var r := PropagateStep(x, src, t, letter);
    StepFrame(x, src, t, letter);
    forall c | c in conn + [t] && c != src
      ensures if IsWhitespace(letter) then c.pos < |r[c.word]| ==> r[c.word][c.pos] == ' '
              else c.pos < |r[c.word]| && r[c.word][c.pos] == letter
    {
      if c != t {
        assert c in conn;
      }
    }
  }

  /** Non-blank and blank propagation both leave every connected cell settled. */
  lemma {:induction false} PropagateSettles(x: Inputs, src: Cell, conn: seq<Cell>, letter: char)
    requires InRange(x, conn)
    ensures Settled(Propagate(x, src, conn, letter), src, conn, letter)
  {
    if conn != [] {
      var pre := conn[..|conn| - 1];
      assert forall c :: c in pre ==> c in conn;
      PropagateSettles(x, src, pre, letter);
      StepKeepsSettled(Propagate(x, src, pre, letter), src, pre, conn[|conn| - 1], letter);
      assert pre + [conn[|conn| - 1]] == conn;
    }
  }

  /** A target that already agrees is not rewritten: propagation over a settled state changes nothing. */
  lemma {:induction false} PropagateSettledIsIdentity(x: Inputs, src: Cell, conn: seq<Cell>, letter: char)
    requires InRange(x, conn) && Settled(x, src, conn, letter)
    ensures Propagate(x, src, conn, letter) == x
  {
    if conn != [] {
      var pre := conn[..|conn| - 1];
      var t := conn[|conn| - 1];
      assert forall c :: c in pre ==> c in conn;
      PropagateSettledIsIdentity(x, src, pre, letter);
      if t != src && IsWhitespace(letter) && t.pos < |x[t.word]| {
        assert ClearAt(x[t.word], t.pos) == x[t.word];
      }
    }
  }

  /**
   * Non-blank propagation: every connected cell other than the source holds
   * the letter afterwards, strings being padded where needed.
   */
  lemma PropagateNonBlank(x: Inputs, src: Cell, conn: seq<Cell>, letter: char)
    requires InRange(x, conn) && !IsWhitespace(letter)
    ensures forall c :: c in conn && c != src ==> Holds(Propagate(x, src, conn, letter), c, letter)
  {
    PropagateSettles(x, src, conn, letter);
  }

  /**
   * Blank propagation: every connected cell other than the source that its
   * string already reaches becomes a space; no string changes length.
   */
  lemma PropagateBlank(x: Inputs, src: Cell, conn: seq<Cell>, letter: char)
    requires InRange(x, conn) && IsWhitespace(letter)
    ensures forall w :: 0 <= w < |x| ==> |Propagate(x, src, conn, letter)[w]| == |x[w]|
    ensures forall c :: c in conn && c != src && c.pos < |x[c.word]| ==> Holds(Propagate(x, src, conn, letter), c, ' ')
  {
    PropagateSettles(x, src, conn, letter);
    PropagateBlankLengths(x, src, conn, letter);
  }

  // ----- Whole edits -----

  /**
   * `handleCellInput(w, p, L)`: the edited cell holds `L`; with a non-blank
   * `L` every directly connected cell holds `L` too, and with a blank `L`
   * (Escape) every connected cell its string reaches is cleared; nothing outside the
   * edited cell and its connected cells changes.
   */
  lemma EditEffect(x: Inputs, index: Index, w: nat, p: nat, letter: char)
    requires w < |x| && IndexInRange(index, |x|)
    ensures Holds(Edit(x, index, w, p, letter), Cell(w, p), letter)
    ensures !IsWhitespace(letter) ==>
      forall c :: c in Connected(index, Cell(w, p)) ==> Holds(Edit(x, index, w, p, letter), c, letter)
    ensures IsWhitespace(letter) ==>
      forall c :: c in Connected(index, Cell(w, p)) && c != Cell(w, p) && c.pos < |x[c.word]| ==>
        Holds(Edit(x, index, w, p, letter), c, ' ')
    ensures Frame(x, Edit(x, index, w, p, letter), {Cell(w, p)} + Targets(Cell(w, p), Connected(index, Cell(w, p))))
  {
    var src := Cell(w, p);
    var conn := Connected(index, src);
    var y := x[w := SetAt(x[w], p, letter)];
    SetAtFrame(x, w, p, letter);
    PropagateFrame(y, src, conn, letter);
    FrameTrans(x, y, Edit(x, index, w, p, letter), {src}, Targets(src, conn));
    if !IsWhitespace(letter) {
      PropagateNonBlank(y, src, conn, letter);
    } else {
      PropagateBlank(y, src, conn, letter);
      assert forall v :: 0 <= v < |x| ==> |x[v]| <= |y[v]|;
    }
  }

  /** Repeating the same edit leaves the answer state unchanged. */
  lemma EditIdempotent(x: Inputs, index: Index, w: nat, p: nat, letter: char)
    requires w < |x| && IndexInRange(index, |x|)
    ensures Edit(Edit(x, index, w, p, letter), index, w, p, letter) == Edit(x, index, w, p, letter)
  {
    var src := Cell(w, p);
    var conn := Connected(index, src);
    var e := Edit(x, index, w, p, letter);
    EditEffect(x, index, w, p, letter);
    PropagateSettles(x[w := SetAt(x[w], p, letter)], src, conn, letter);
    assert SetAt(e[w], p, letter) == e[w];
    assert e[w := SetAt(e[w], p, letter)] == e;
    PropagateSettledIsIdentity(e, src, conn, letter);
  }

  /**
   * Delete and Backspace: the cell becomes a space only if its string
   * reaches it, the connected cells are cleared likewise, and no string
   * changes length.
   */
  lemma EraseEffect(x: Inputs, index: Index, w: nat, p: nat)
    requires w < |x| && IndexInRange(index, |x|)
    ensures forall v :: 0 <= v < |x| ==> |Erase(x, index, w, p)[v]| == |x[v]|
    ensures p < |x[w]| ==> Holds(Erase(x, index, w, p), Cell(w, p), ' ')
    ensures forall c :: c in Connected(index, Cell(w, p)) && c.pos < |x[c.word]| ==> Holds(Erase(x, index, w, p), c, ' ')
    ensures Frame(x, Erase(x, index, w, p), {Cell(w, p)} + Targets(Cell(w, p), Connected(index, Cell(w, p))))
  {
    var src := Cell(w, p);
    var conn := Connected(index, src);
    var y := x[w := ClearAt(x[w], p)];
    ClearAtFrame(x, w, p);
    PropagateFrame(y, src, conn, ' ');
    PropagateBlank(y, src, conn, ' ');
    FrameTrans(x, y, Erase(x, index, w, p), {src}, Targets(src, conn));
    forall c | c in conn && c.pos < |x[c.word]| ensures Holds(Erase(x, index, w, p), c, ' ') {
      if c == src {
        assert c.pos < |y[c.word]| && y[c.word][c.pos] == ' ';
      }
    }
  }

  /** Edits inside the grid keep every word no longer than its answer. */
  lemma FrameKeepsFits(words: seq<Word>, x: Inputs, r: Inputs, touched: set<Cell>)
    requires Fits(words, x) && Frame(x, r, touched)
    requires forall c :: c in touched ==> CellOk(words, c)
    ensures Fits(words, r)
  {
    forall w | 0 <= w < |r| ensures |r[w]| <= |words[w].answer| {
      if |x[w]| < |r[w]| {
        assert CellOk(words, Cell(w, |r[w]| - 1));
      }
    }
  }

  lemma EditKeepsFits(words: seq<Word>, x: Inputs, index: Index, w: nat, p: nat, letter: char)
    requires Fits(words, x) && IndexWithin(index, words) && CellOk(words, Cell(w, p))
    ensures IndexInRange(index, |x|)
    ensures Fits(words, Edit(x, index, w, p, letter))
    ensures Fits(words, Erase(x, index, w, p))
  {
    var conn := Connected(index, Cell(w, p));
    EditEffect(x, index, w, p, letter);
    FrameKeepsFits(words, x, Edit(x, index, w, p, letter), {Cell(w, p)} + Targets(Cell(w, p), conn));
    EraseEffect(x, index, w, p);
    FrameKeepsFits(words, x, Erase(x, index, w, p), {Cell(w, p)} + Targets(Cell(w, p), conn));
  }

  // ----- propagateLetter (no caller in the page) -----

  /** One iteration of `propagateLetter`'s inner loop: pad and write, with no source or equality check. */
  function Overwrite(x: Inputs, conn: seq<Cell>, letter: char): (r: Inputs)
    requires InRange(x, conn)
    ensures |r| == |x|
  {
    if conn == [] then x
    else
      var pre := conn[..|conn| - 1];
      var t := conn[|conn| - 1];
      assert forall c :: c in pre ==> c in conn;
      var y := Overwrite(x, pre, letter);
      y[t.word := SetAt(y[t.word], t.pos, letter)]
  }

  /**
   * The cells that position `pos` of word `w` pushes its letter to: its
   * connected list when it has an entry and its upper-cased letter is present
   * and not blank, otherwise nothing.
   */
  function Reach(index: Index, w: nat, upper: string, pos: nat): seq<Cell>
  {
    if Cell(w, pos) in index && pos < |upper| && !IsWhitespace(upper[pos]) then index[Cell(w, pos)].connected
    else []
  }

  /** `propagateLetter(w, value)` for the first `n` positions of word `w`, with `upper = value.toUpperCase()`. */
  function PropagateLetter(x: Inputs, index: Index, w: nat, upper: string, n: nat): (r: Inputs)
    requires IndexInRange(index, |x|)
    ensures |r| == |x|
  {
    if n == 0 then x
    else
      var y := PropagateLetter(x, index, w, upper, n - 1);
      var conn := Reach(index, w, upper, n - 1);
      if conn == [] then y else Overwrite(y, conn, upper[n - 1])
  }

  function CellSet(conn: seq<Cell>): set<Cell>
  {
    set c | c in conn
  }

  lemma {:induction false} OverwriteFrame(x: Inputs, conn: seq<Cell>, letter: char)
    requires InRange(x, conn)
    ensures Frame(x, Overwrite(x, conn, letter), CellSet(conn))
  {
    if conn != [] {
      var pre := conn[..|conn| - 1];
      var t := conn[|conn| - 1];
      assert forall c :: c in pre ==> c in conn;
      OverwriteFrame(x, pre, letter);
      var y := Overwrite(x, pre, letter);
      SetAtFrame(y, t.word, t.pos, letter);
      FrameTrans(x, y, Overwrite(x, conn, letter), CellSet(pre), {t});
      assert CellSet(pre) + {t} == CellSet(conn);
    }
  }

  lemma {:induction false} OverwriteHolds(x: Inputs, conn: seq<Cell>, letter: char)
    requires InRange(x, conn)
    ensures forall c :: c in conn ==> Holds(Overwrite(x, conn, letter), c, letter)
  {
    if conn != [] {
      var pre := conn[..|conn| - 1];
      var t := conn[|conn| - 1];
      assert forall c :: c in pre ==> c in conn;
      OverwriteHolds(x, pre, letter);
      var y := Overwrite(x, pre, letter);
      var r := Overwrite(x, conn, letter);
      assert r == y[t.word := SetAt(y[t.word], t.pos, letter)];
      forall c | c in conn ensures Holds(r, c, letter) {
        if c != t {
          assert c in pre;
          assert Holds(y, c, letter);
        }
      }
    }
  }

  /** The cells reached from the first `n` positions of word `w`. */
  function Reached(index: Index, w: nat, upper: string, n: nat): set<Cell>
  {
    set pos, c | 0 <= pos < n && c in Reach(index, w, upper, pos) :: c
  }

  lemma FrameWiden(x: Inputs, r: Inputs, t1: set<Cell>, t2: set<Cell>)
    requires Frame(x, r, t1) && t1 <= t2
    ensures Frame(x, r, t2)
  {
  }

  /** A cell outside the overwritten list keeps its letter. */
  lemma OverwriteKeeps(x: Inputs, conn: seq<Cell>, letter: char, c: Cell, l: char)
    requires InRange(x, conn) && c !in conn && Holds(x, c, l)
    ensures Holds(Overwrite(x, conn, letter), c, l)
  {
    OverwriteFrame(x, conn, letter);
    FrameKeepsHolds(x, Overwrite(x, conn, letter), CellSet(conn), c, l);
  }

  lemma FrameKeepsHolds(x: Inputs, r: Inputs, touched: set<Cell>, c: Cell, letter: char)
    requires Frame(x, r, touched) && c !in touched && Holds(x, c, letter)
    ensures Holds(r, c, letter)
  {
  }

  lemma ReachedGrows(index: Index, w: nat, upper: string, n: nat)
    requires n > 0
    ensures Reached(index, w, upper, n - 1) + CellSet(Reach(index, w, upper, n - 1)) <= Reached(index, w, upper, n)
  {
    forall c | c in CellSet(Reach(index, w, upper, n - 1)) ensures c in Reached(index, w, upper, n) {
      assert 0 <= n - 1 < n && c in Reach(index, w, upper, n - 1);
    }
  }

  /** `propagateLetter` changes only cells connected to a non-blank position of the source value. */
  lemma {:induction false} PropagateLetterFrame(x: Inputs, index: Index, w: nat, upper: string, n: nat)
    requires IndexInRange(index, |x|)
    ensures Frame(x, PropagateLetter(x, index, w, upper, n), Reached(index, w, upper, n))
  {
    if n > 0 {
      var y := PropagateLetter(x, index, w, upper, n - 1);
      var conn := Reach(index, w, upper, n - 1);
      PropagateLetterFrame(x, index, w, upper, n - 1);
      ReachedGrows(index, w, upper, n);
      if conn == [] {
        FrameWiden(x, y, Reached(index, w, upper, n - 1), Reached(index, w, upper, n));
      } else {
        OverwriteFrame(y, conn, upper[n - 1]);
        FrameTrans(x, y, Overwrite(y, conn, upper[n - 1]), Reached(index, w, upper, n - 1), CellSet(conn));
        FrameWiden(x, Overwrite(y, conn, upper[n - 1]), Reached(index, w, upper, n - 1) + CellSet(conn), Reached(index, w, upper, n));
      }
    }
  }

  /**
   * When the positions of the source word reach pairwise disjoint cells, each
   * reached cell ends up holding the upper-cased letter of the position that
   * reaches it.
   */
  lemma {:induction false} PropagateLetterHolds(x: Inputs, index: Index, w: nat, upper: string, n: nat)
    requires IndexInRange(index, |x|)
    requires forall a, b, c :: 0 <= a < b < n && c in Reach(index, w, upper, a) ==> c !in Reach(index, w, upper, b)
    ensures forall pos, c :: 0 <= pos < n && c in Reach(index, w, upper, pos) ==>
      Holds(PropagateLetter(x, index, w, upper, n), c, upper[pos])
  {
    forall pos, c | 0 <= pos < n && c in Reach(index, w, upper, pos)
      ensures Holds(PropagateLetter(x, index, w, upper, n), c, upper[pos])
    {
      PropagateLetterHoldsAt(x, index, w, upper, n, pos, c);
    }
  }

  /** One reached cell at a time: the last position to reach `c` is `pos`, so `c` keeps its letter. */
  lemma {:induction false} PropagateLetterHoldsAt(x: Inputs, index: Index, w: nat, upper: string, n: nat, pos: nat, c: Cell)
    requires IndexInRange(index, |x|)
    requires pos < n && c in Reach(index, w, upper, pos)
    requires forall b :: pos < b < n ==> c !in Reach(index, w, upper, b)
    ensures pos < |upper|
    ensures Holds(PropagateLetter(x, index, w, upper, n), c, upper[pos])
  {
    if pos == n - 1 {
      LastPositionHolds(x, index, w, upper, n, c);
    } else {
      PropagateLetterHoldsAt(x, index, w, upper, n - 1, pos, c);
      assert Holds(PropagateLetter(x, index, w, upper, n - 1), c, upper[pos]);
      assert c !in Reach(index, w, upper, n - 1);
      LaterPositionKeeps(x, index, w, upper, n, c, upper[pos]);
    }
  }

  /** The cells position `n - 1` reaches hold its letter once it has been pushed. */
  lemma LastPositionHolds(x: Inputs, index: Index, w: nat, upper: string, n: nat, c: Cell)
    requires IndexInRange(index, |x|)
    requires n > 0 && c in Reach(index, w, upper, n - 1)
    ensures n - 1 < |upper| && Holds(PropagateLetter(x, index, w, upper, n), c, upper[n - 1])
  {
    var y := PropagateLetter(x, index, w, upper, n - 1);
    OverwriteHolds(y, Reach(index, w, upper, n - 1), upper[n - 1]);
  }

  /** Pushing position `n - 1` leaves the cells it does not reach as they were. */
  lemma LaterPositionKeeps(x: Inputs, index: Index, w: nat, upper: string, n: nat, c: Cell, l: char)
    requires IndexInRange(index, |x|)
    requires n > 0 && c !in Reach(index, w, upper, n - 1)
    requires Holds(PropagateLetter(x, index, w, upper, n - 1), c, l)
    ensures Holds(PropagateLetter(x, index, w, upper, n), c, l)
  {
    var y := PropagateLetter(x, index, w, upper, n - 1);
    var conn := Reach(index, w, upper, n - 1);
    if conn != [] {
      OverwriteKeeps(y, conn, upper[n - 1], c, l);
    }
  }
}
