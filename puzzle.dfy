/**
 * The puzzle definition: clued words with a solution-letter position, and the
 * intersections that declare two letter cells of different words equal. The
 * shipped instance is the eight-word puzzle "Valkparkiet".
 */
module Puzzle {
  import opened JsText

  /** One clued answer slot. `breakAfter` is false where the source omits it. */
  datatype Word = Word(clue: string, answer: string, solutionIndex: nat, breakAfter: bool)

  /** Declares that letter `pos1` of word `word1` equals letter `pos2` of word `word2`. */
  datatype Intersection = Intersection(word1: nat, pos1: nat, word2: nat, pos2: nat, group: string)

  datatype PuzzleDef = PuzzleDef(title: string, hint: string, words: seq<Word>, intersections: seq<Intersection>)

  /** A letter cell: a word index and a letter position inside that word. */
  datatype Cell = Cell(word: nat, pos: nat)

  function Key1(r: Intersection): Cell { Cell(r.word1, r.pos1) }
  function Key2(r: Intersection): Cell { Cell(r.word2, r.pos2) }

  predicate WordOk(w: Word)
  {
    && |w.answer| > 0
    && w.solutionIndex < |w.answer|
    && forall i :: 0 <= i < |w.answer| ==> IsUpperLetter(w.answer[i])
  }

  /** Both endpoints name existing words and letter positions inside their answers. */
  predicate IntersectionOk(words: seq<Word>, r: Intersection)
  {
    && r.word1 < |words| && r.pos1 < |words[r.word1].answer|
    && r.word2 < |words| && r.pos2 < |words[r.word2].answer|
  }

  /** The cell lies inside the answer of an existing word. */
  predicate CellOk(words: seq<Word>, c: Cell)
  {
    c.word < |words| && c.pos < |words[c.word].answer|
  }

  predicate WellFormed(p: PuzzleDef)
  {
    && |p.words| > 0
    && (forall w :: w in p.words ==> WordOk(w))
    && (forall r :: r in p.intersections ==> IntersectionOk(p.words, r))
  }

  /** The `puzzle` constant the page is built from. */
  const Valkparkiet: PuzzleDef := PuzzleDef(
    "Valkparkiet",
    "3 woorden",
    [
      Word("Romeinse keizer", "NERO", 1, false),
      Word("Zwart-wit dier", "PANDA", 1, false),
      Word("Vader moet er dringend eens op gaan staan (ENG)", "PASCALE", 5, false),
      Word("Pesticide", "DDT", 1, false),
      Word("Serie van naakte vrouwen", "STRIPREEKS", 4, true),
      Word("Muziekregel", "MAAT", 2, false),
      Word("Stad in Itali\U{EB}", "ROMA", 1, false),
      Word("Dier met lange nek", "GIRAFFE", 3, false)
    ],
    [
      Intersection(0, 1, 1, 1, "A"),
      Intersection(1, 1, 2, 1, "B"),
      Intersection(2, 1, 3, 1, "C"),
      Intersection(3, 0, 4, 0, "D"),
      Intersection(4, 4, 5, 0, "E"),
      Intersection(5, 2, 6, 1, "F"),
      Intersection(6, 1, 7, 2, "G")
    ])
}
