/**
 * Facts about the shipped puzzle "Valkparkiet": it is well formed, its group
 * ids, layout and ghost counts are as the page expects, and its intersection
 * data does not make the letters it joins agree, so that the victory is out
 * of reach by typing in the grid.
 */
module Instance {
  import opened Wrappers
  import opened JsText
  import opened Puzzle
  import opened IntersectionIndex
  import opened AnswerState
  import opened Validator
  import opened Layout
  import opened Session

  const Words: seq<Word> := Valkparkiet.words
  const Recs: seq<Intersection> := Valkparkiet.intersections

  /** Every answer is upper case and non-empty, every `solutionIndex` lies inside its answer. */
  lemma WordsOk()
    ensures |Words| == 8
    ensures forall w :: 0 <= w < 8 ==> WordOk(Words[w])
  {
    forall w | 0 <= w < 8 ensures WordOk(Words[w]) {
      var a := Words[w].answer;
      assert forall i :: 0 <= i < |a| ==> IsUpperLetter(a[i]);
    }
  }

  /**
   * The puzzle is well formed, and each of its seven intersections joins two
   * different words at letter positions inside both answers.
   */
  lemma InstanceWellFormed()
    ensures WellFormed(Valkparkiet)
    ensures |Recs| == 7
    ensures forall i :: 0 <= i < 7 ==> IntersectionOk(Words, Recs[i]) && Recs[i].word1 != Recs[i].word2
  {
    WordsOk();
    forall i | 0 <= i < 7 ensures IntersectionOk(Words, Recs[i]) && Recs[i].word1 != Recs[i].word2 {
      RecOk(i);
    }
    forall r | r in Recs ensures IntersectionOk(Words, r) {
      var i :| 0 <= i < |Recs| && Recs[i] == r;
      RecOk(i);
    }
  }

  lemma RecOk(i: nat)
    requires i < 7
    ensures IntersectionOk(Words, Recs[i]) && Recs[i].word1 != Recs[i].word2
  {
    assert |Recs| == 7 && |Words| == 8;
  }

  /** The index of the page only mentions grid cells. */
  lemma InstancePuzzleOk()
    ensures PuzzleOk(Words, IndexOf(Recs))
  {
    InstanceWellFormed();
    WordsOk();
    IndexWithinPuzzle(Valkparkiet);
  }

  /**
   * The group ids are the single letters A to G, one per intersection, so the
   * group numbers are 1 to 7 and the colour indices 0 to 6.
   */
  lemma GroupIds()
    ensures forall i :: 0 <= i < 7 ==>
      && |Recs[i].group| == 1 && IsUpperLetter(Recs[i].group[0])
      && GroupNumber(Recs[i].group) == Some(i + 1)
      && ColorIndex(Recs[i].group) == Some(i)
    ensures forall i, j :: 0 <= i < j < 7 ==> Recs[i].group != Recs[j].group
  {
    forall i | 0 <= i < 7
      ensures Recs[i].group == [(65 + i) as char]
      ensures GroupNumber(Recs[i].group) == Some(i + 1)
      ensures ColorIndex(Recs[i].group) == Some(i)
    {
      GroupIdAt(i);
    }
  }

  lemma GroupIdAt(i: nat)
    requires i < 7
    ensures Recs[i].group == [(65 + i) as char]
  {
    assert |Recs| == 7;
  }

  /**
   * Only word 4 (STRIPREEKS) is marked `breakAfter`, so the solution row has
   * one spacer, directly after the fifth letter.
   */
  lemma SolutionRowOfInstance()
    ensures forall w :: 0 <= w < 8 ==> (Words[w].breakAfter <==> w == 4)
    ensures SolutionRow(Words) ==
      [Letter(0), Letter(1), Letter(2), Letter(3), Letter(4), Spacer, Letter(5), Letter(6), Letter(7)]
    ensures CountBreaks(Words) == 1
  {
    assert Words[..1][..0] == [];
    assert SolutionRow(Words[..1]) == [Letter(0)];
    assert Words[..2][..1] == Words[..1];
    assert SolutionRow(Words[..2]) == [Letter(0), Letter(1)];
    assert Words[..3][..2] == Words[..2];
    assert SolutionRow(Words[..3]) == [Letter(0), Letter(1), Letter(2)];
    assert Words[..4][..3] == Words[..3];
    assert SolutionRow(Words[..4]) == [Letter(0), Letter(1), Letter(2), Letter(3)];
    assert Words[..5][..4] == Words[..4];
    assert SolutionRow(Words[..5]) == [Letter(0), Letter(1), Letter(2), Letter(3), Letter(4), Spacer];
    assert Words[..6][..5] == Words[..5];
    assert Words[..7][..6] == Words[..6];
    assert Words[..8][..7] == Words[..7];
    assert Words[..8] == Words;
    SolutionRowShape(Words);
  }

  /** The largest `solutionIndex` is 5 (PASCALE), so ghosts plus `solutionIndex` is 5 on every row. */
  lemma GhostsOfInstance()
    ensures MaxSolutionIndex(Words) == 5
    ensures forall w :: 0 <= w < 8 ==> GhostCount(Words, w) + Words[w].solutionIndex == 5 && GhostCount(Words, w) >= 0
    ensures GhostCount(Words, 2) == 0
  {
    assert Words[2].solutionIndex == 5;
  }

  /** The letter of the answer at one end of an intersection. */
  function AnswerLetter(r: Intersection, end1: bool): char
    requires IntersectionOk(Words, r)
  {
    if end1 then Words[r.word1].answer[r.pos1] else Words[r.word2].answer[r.pos2]
  }

  /**
   * The answers agree at an intersection only for group B (PANDA and PASCALE
   * both have A); groups A (E/A), C (A/D), D (D/S), E (P/M), F (A/O) and
   * G (O/R) join different letters.
   */
  lemma SharedLetters()
    ensures forall i :: 0 <= i < 7 ==> IntersectionOk(Words, Recs[i])
    ensures forall i :: 0 <= i < 7 ==> (AnswerLetter(Recs[i], true) == AnswerLetter(Recs[i], false) <==> i == 1)
    ensures [AnswerLetter(Recs[0], true), AnswerLetter(Recs[0], false)] == "EA"
    ensures [AnswerLetter(Recs[4], true), AnswerLetter(Recs[4], false)] == "PM"
  {
    InstanceWellFormed();
  }

  /**
   * With every answer inside its word, NERO and PANDA cannot both be correct
   * without intersection A holding two different letters.
   */
  lemma NeroPandaClash(x: Inputs)
    requires Fits(Words, x)
    requires IsCorrect(Words[0], x[0]) && IsCorrect(Words[1], x[1])
    ensures Disagree(x, Recs[0])
  {
    assert WordOk(Words[0]) && WordOk(Words[1]);
    CorrectWithinAnswer(Words[0], x[0]);
    CorrectWithinAnswer(Words[1], x[1]);
    assert UpperChar(x[0][1]) == ToUpper(x[0])[1] == 'E';
    assert UpperChar(x[1][1]) == ToUpper(x[1])[1] == 'A';
  }

  /** For answers inside the grid the Check button never reports the victory. */
  lemma NoVictoryWithinGrid(x: Inputs)
    requires Fits(Words, x)
    ensures OutcomeOf(Words, Recs, x) != AllCorrect
  {
    TallyToast(Words, Recs, x);
    if OutcomeOf(Words, Recs, x) == AllCorrect {
      NeroPandaClash(x);
    }
  }

  /**
   * Whatever the player types, clicks or clears, starting from the empty page
   * (and loading only answers this page could have saved), the victory is
   * never reached.
   */
  lemma VictoryUnreachable(events: seq<Event>)
    requires forall e :: e in events ==> EventOk(Words, e) && FitsIfAccepted(Words, e)
    ensures Ok(Words, IndexOf(Recs), Initial(8))
    ensures OutcomeOf(Words, Recs, Run(Words, IndexOf(Recs), Initial(8), events).inputs) != AllCorrect
  {
    InstancePuzzleOk();
    WordsOk();
    InitialOk(Words, IndexOf(Recs));
    RunKeepsSession(Words, IndexOf(Recs), Initial(8), events);
    NoVictoryWithinGrid(Run(Words, IndexOf(Recs), Initial(8), events).inputs);
  }

  /** Five spaces, then the answer. */
  function Indented(w: nat): string
    requires w < 8
  {
    "     " + Words[w].answer
  }

  const IndentedAnswers: Inputs := seq(8, w requires 0 <= w < 8 => Indented(w))

  lemma UpperAnswer(a: string)
    requires forall i :: 0 <= i < |a| ==> IsUpperLetter(a[i])
    ensures ToUpper(a) == a
  {
  }

  lemma IndentedCorrect(w: nat)
    requires w < 8
    ensures IsCorrect(Words[w], IndentedAnswers[w])
  {
    WordsOk();
    var a := Words[w].answer;
    assert IndentedAnswers[w] == "     " + a;
    TrimAfterWhitespace("     ", a);
    UpperAnswer(a);
  }

  lemma IndentedAgree(i: nat)
    requires i < 7
    ensures Covers(IndentedAnswers, Recs)
    ensures !Disagree(IndentedAnswers, Recs[i])
  {
    var x := IndentedAnswers;
    var r := Recs[i];
    assert r.pos1 < 5 && r.pos2 < 5;
    assert x[r.word1] == Indented(r.word1) && x[r.word2] == Indented(r.word2);
  }

  /**
   * Stored answers each preceded by five spaces win: `trim` makes every word
   * correct, and every intersection position (all below 5) holds a space at
   * both ends, so no intersection disagrees.
   */
  lemma VictoryFromStorage()
    ensures Load(Initial(8), Some(IndentedAnswers), 8).inputs == IndentedAnswers
    ensures !Fits(Words, IndentedAnswers)
    ensures OutcomeOf(Words, Recs, IndentedAnswers) == AllCorrect
  {
    AllIndentedCorrect();
    NoIndentedDisagreement();
    assert |IndentedAnswers[0]| == 9;
    TallyToast(Words, Recs, IndentedAnswers);
  }

  lemma AllIndentedCorrect()
    ensures |IndentedAnswers| == |Words|
    ensures forall w :: 0 <= w < |Words| ==> IsCorrect(Words[w], IndentedAnswers[w])
  {
    forall w | 0 <= w < 8 ensures IsCorrect(Words[w], IndentedAnswers[w]) {
      IndentedCorrect(w);
    }
  }

  lemma NoIndentedDisagreement()
    ensures Covers(IndentedAnswers, Recs)
    ensures !AnyDisagree(IndentedAnswers, Recs)
  {
    forall i | 0 <= i < 7 ensures !Disagree(IndentedAnswers, Recs[i]) {
      IndentedAgree(i);
    }
  }

  /** Stored answers where DDT carries a trailing space beyond its three letters. */
  const LooseDdt: Inputs := ["", "", "", "DDT ", "", "", "", ""]

  /**
   * The cursor bound needs the answers to fit: after loading `LooseDdt`,
   * selecting STRIPREEKS, moving right three cells and clicking DDT, the
   * fallback `findFirstEmptyCell` returns 3, a cell DDT does not have, so the
   * cursor stays at 3 on a three-letter word; a typed letter then lands
   * outside the grid. This holds whatever the intersection index.
   */
  lemma CursorLeavesWord(index: Index)
    requires IndexInRange(index, 8)
    ensures var s := Run(Words, index, Initial(8),
      [Loaded(Some(LooseDdt)), Click(4), Key("ArrowRight", false), Key("ArrowRight", false),
       Key("ArrowRight", false), Click(3)]);
      && s.active == Some(3) && s.cursor == 3
      && !CursorOk(Words, s)
      && Holds(KeyDown(Words, index, s, "x", false).inputs, Cell(3, 3), 'X')
  {
    var right := Key("ArrowRight", false);
    var events := [Loaded(Some(LooseDdt)), Click(4), right, right, right, Click(3)];
    var s0 := Initial(8);
    var s6 := State(LooseDdt, Some(3), 3);
    RunLooseDdt(index);
    assert Run(Words, index, s0, events) == s6;
    assert KeyDown(Words, index, s6, "x", false).inputs == Edit(LooseDdt, index, 3, 3, 'X');
    EditEffect(LooseDdt, index, 3, 3, 'X');
  }

  lemma RunLooseDdt(index: Index)
    requires IndexInRange(index, 8)
    ensures Run(Words, index, Initial(8),
      [Loaded(Some(LooseDdt)), Click(4), Key("ArrowRight", false), Key("ArrowRight", false),
       Key("ArrowRight", false), Click(3)]) == State(LooseDdt, Some(3), 3)
  {
    var right := Key("ArrowRight", false);
    var events := [Loaded(Some(LooseDdt)), Click(4), right, right, right, Click(3)];
    var s0 := Initial(8);
    assert events[..1][..0] == [];
    assert Run(Words, index, s0, events[..1]) == State(LooseDdt, None, 0);
    assert events[..2][..1] == events[..1];
    SelectStripreeks(index);
    assert Run(Words, index, s0, events[..2]) == State(LooseDdt, Some(4), 0);
    assert events[..3][..2] == events[..2];
    MoveRight(index, 0);
    assert Run(Words, index, s0, events[..3]) == State(LooseDdt, Some(4), 1);
    assert events[..4][..3] == events[..3];
    MoveRight(index, 1);
    assert Run(Words, index, s0, events[..4]) == State(LooseDdt, Some(4), 2);
    assert events[..5][..4] == events[..4];
    MoveRight(index, 2);
    assert Run(Words, index, s0, events[..5]) == State(LooseDdt, Some(4), 3);
    assert events[..6][..5] == events[..5];
    assert events[..6] == events;
    SelectDdt(index);
  }

  lemma SelectStripreeks(index: Index)
    requires IndexInRange(index, 8)
    ensures Step(Words, index, State(LooseDdt, None, 0), Click(4)) == State(LooseDdt, Some(4), 0)
  {
    assert |Words[4].answer| == 10;
  }

  lemma MoveRight(index: Index, c: nat)
    requires IndexInRange(index, 8) && c < 9
    ensures Step(Words, index, State(LooseDdt, Some(4), c), Key("ArrowRight", false)) == State(LooseDdt, Some(4), c + 1)
  {
    assert |Words[4].answer| == 10;
  }

  lemma SelectDdt(index: Index)
    requires IndexInRange(index, 8)
    ensures Step(Words, index, State(LooseDdt, Some(4), 3), Click(3)) == State(LooseDdt, Some(3), 3)
  {
    assert |Words[3].answer| == 3;
    assert FirstEmpty(LooseDdt[3]) == 3;
  }
}
