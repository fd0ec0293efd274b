/**
 * Validation: `checkSingle` (is a word correct, which solution letter does it
 * reveal), `checkIntersections` (which intersections hold different letters
 * at their two ends) and the tally and outcome of the Check button.
 */
module Validator {
  import opened Wrappers
  import opened JsText
  import opened Puzzle
  import opened AnswerState

  // ----- checkSingle -----

  /** What `checkSingle` shows for one word: green styling, the clue status, the solution letter. */
  datatype WordCheck = WordCheck(correct: bool, filled: bool, solutionLetter: Option<char>)

  /** The correctness test `wordInputs[i].trim().toUpperCase() === answer`. */
  predicate IsCorrect(word: Word, value: string)
  {
    ToUpper(Trim(value)) == word.answer
  }

  /**
   * `checkSingle(i)`: a word is correct exactly when its trimmed, upper-cased
   * value equals the answer; the clue is marked only when that value is not
   * empty; the solution cell shows `answer[solutionIndex]` exactly when the
   * word is correct and not empty, and is emptied otherwise.
   */
  function CheckSingle(word: Word, value: string): (r: WordCheck)
    requires word.solutionIndex < |word.answer|
    ensures r.correct <==> IsCorrect(word, value)
    ensures r.filled <==> !AllWhitespace(value)
    ensures r.solutionLetter.Some? <==> r.correct && r.filled
    ensures r.solutionLetter.Some? ==> r.solutionLetter.value == word.answer[word.solutionIndex]
  {
    var v := ToUpper(Trim(value));
    var correct := v == word.answer;
    if v == [] then WordCheck(correct, false, None)
    else if correct then WordCheck(true, true, Some(word.answer[word.solutionIndex]))
    else WordCheck(false, true, None)
  }

  lemma UpperLetterNotWhitespace(c: char)
    requires IsUpperLetter(UpperChar(c))
    ensures !IsWhitespace(c)
  {
  }

  /**
   * For a value no longer than its answer (every value edits inside the grid
   * produce) trimming has no room to matter: the word is correct exactly when
   * the value, upper-cased, is the answer itself.
   */
  lemma CorrectWithinAnswer(word: Word, value: string)
    requires WordOk(word) && |value| <= |word.answer|
    ensures IsCorrect(word, value) <==> ToUpper(value) == word.answer
  {
    var t := Trim(value);
    var lead := LeadingWhitespace(value);
    if IsCorrect(word, value) {
      assert |t| == |word.answer|;
      assert t == value[lead..lead + |t|];
      assert lead == 0 && t == value;
    }
    if ToUpper(value) == word.answer {
      assert !IsWhitespace(value[0]) by { UpperLetterNotWhitespace(value[0]); }
      assert lead == 0;
      var last := |value| - 1;
      assert !IsWhitespace(value[last]) by { UpperLetterNotWhitespace(value[last]); }
      assert t == value;
    }
  }

  // ----- checkIntersections -----

  /** A reported conflict: the intersection, its two letters and its group. */
  datatype Conflict = Conflict(intersection: Intersection, letter1: char, letter2: char, group: string)

  /** Both endpoint words of every intersection have an entry in `x`. */
  predicate Covers(x: Inputs, recs: seq<Intersection>)
  {
    forall r :: r in recs ==> r.word1 < |x| && r.word2 < |x|
  }

  /**
   * `value[pos]?.toUpperCase() || ""`: the upper-cased character, or `None`
   * past the end of the string. A stored space is a letter here.
   */
  function LetterAt(x: Inputs, w: nat, pos: nat): Option<char>
    requires w < |x|
  {
    if pos < |x[w]| then Some(UpperChar(x[w][pos])) else None
  }

  /** Both ends of the intersection hold a letter and the letters differ. */
  predicate Disagree(x: Inputs, r: Intersection)
    requires r.word1 < |x| && r.word2 < |x|
  {
    var l1 := LetterAt(x, r.word1, r.pos1);
    var l2 := LetterAt(x, r.word2, r.pos2);
    l1.Some? && l2.Some? && l1.value != l2.value
  }

  function ConflictOf(x: Inputs, r: Intersection): Conflict
    requires r.word1 < |x| && r.word2 < |x| && Disagree(x, r)
  {
    Conflict(r, LetterAt(x, r.word1, r.pos1).value, LetterAt(x, r.word2, r.pos2).value, r.group)
  }

  /** Some intersection of `recs` belongs to group `g`. */
  predicate HasGroup(recs: seq<Intersection>, g: string)
  {
    exists i :: 0 <= i < |recs| && recs[i].group == g
  }

  lemma HasGroupSplit(recs: seq<Intersection>, g: string)
    requires recs != []
    ensures HasGroup(recs, g) <==> HasGroup(recs[..|recs| - 1], g) || recs[|recs| - 1].group == g
  {
    var pre := recs[..|recs| - 1];
    if HasGroup(pre, g) {
      var i :| 0 <= i < |pre| && pre[i].group == g;
      assert recs[i].group == g;
    }
    if HasGroup(recs, g) && recs[|recs| - 1].group != g {
      var i :| 0 <= i < |recs| && recs[i].group == g;
      assert pre[i].group == g;
    }
  }

  /** The distinct group ids in order of first appearance, as a `Map` keyed by group iterates. */
  function GroupOrder(recs: seq<Intersection>): (r: seq<string>)
    ensures forall g :: g in r <==> HasGroup(recs, g)
    ensures forall i, j :: 0 <= i < j < |r| ==> r[i] != r[j]
  {
    if recs == [] then []
    else
      var pre := recs[..|recs| - 1];
      var order := GroupOrder(pre);
      var g := recs[|recs| - 1].group;
      assert forall h :: HasGroup(recs, h) <==> HasGroup(pre, h) || h == g by {
        forall h ensures HasGroup(recs, h) <==> HasGroup(pre, h) || h == g {
          HasGroupSplit(recs, h);
        }
      }
      if g in order then order else order + [g]
  }

  /** The intersections of group `g`, in list order. */
  function Members(recs: seq<Intersection>, g: string): (r: seq<Intersection>)
    ensures forall m :: m in r ==> m in recs && m.group == g
  {
    if recs == [] then []
    else
      var last := recs[|recs| - 1];
      var pre := Members(recs[..|recs| - 1], g);
      if last.group == g then pre + [last] else pre
  }

  /** The set `groupLetters` of one group: every present letter at either end of its intersections. */
  function GroupLetters(x: Inputs, ms: seq<Intersection>): set<char>
    requires Covers(x, ms)
  {
    if ms == [] then {}
    else
      var r := ms[|ms| - 1];
      var pre := ms[..|ms| - 1];
      assert Covers(x, pre) by { assert forall m :: m in pre ==> m in ms; }
      var l1 := LetterAt(x, r.word1, r.pos1);
      var l2 := LetterAt(x, r.word2, r.pos2);
      GroupLetters(x, pre) + (if l1.Some? then {l1.value} else {}) + (if l2.Some? then {l2.value} else {})
  }

  /** The conflicts pushed for one group once it has more than one letter: one per disagreeing intersection. */
  function GroupConflicts(x: Inputs, ms: seq<Intersection>): seq<Conflict>
    requires Covers(x, ms)
  {
    if ms == [] then []
    else
      var r := ms[|ms| - 1];
      var pre := ms[..|ms| - 1];
      assert Covers(x, pre) by { assert forall m :: m in pre ==> m in ms; }
      GroupConflicts(x, pre) + (if Disagree(x, r) then [ConflictOf(x, r)] else [])
  }

  /** The conflicts of the groups `gs`, visited in order. */
  function ConflictsFrom(x: Inputs, recs: seq<Intersection>, gs: seq<string>): seq<Conflict>
    requires Covers(x, recs)
  {
    if gs == [] then []
    else
      var ms := Members(recs, gs[|gs| - 1]);
      assert Covers(x, ms);
      ConflictsFrom(x, recs, gs[..|gs| - 1])
        + (if |GroupLetters(x, ms)| > 1 then GroupConflicts(x, ms) else [])
  }

  /** The list `checkIntersections` returns. */
  function ConflictsOf(x: Inputs, recs: seq<Intersection>): seq<Conflict>
    requires Covers(x, recs)
  {
    ConflictsFrom(x, recs, GroupOrder(recs))
  }

  /** Reference definition: one conflict per disagreeing intersection of a group in `groups`, in list order. */
  function DisagreeIn(x: Inputs, recs: seq<Intersection>, groups: set<string>): seq<Conflict>
    requires Covers(x, recs)
  {
    if recs == [] then []
    else
      var r := recs[|recs| - 1];
      var pre := recs[..|recs| - 1];
      assert Covers(x, pre) by { assert forall m :: m in pre ==> m in recs; }
      DisagreeIn(x, pre, groups) + (if r.group in groups && Disagree(x, r) then [ConflictOf(x, r)] else [])
  }

  /** Reference definition: one conflict per disagreeing intersection, in list order. */
  function Disagreements(x: Inputs, recs: seq<Intersection>): seq<Conflict>
    requires Covers(x, recs)
  {
    if recs == [] then []
    else
      var r := recs[|recs| - 1];
      var pre := recs[..|recs| - 1];
      assert Covers(x, pre) by { assert forall m :: m in pre ==> m in recs; }
      Disagreements(x, pre) + (if Disagree(x, r) then [ConflictOf(x, r)] else [])
  }

  /** The grouping loop: a `Map` from group id to its intersections, keys in insertion order. */
  method GroupIntersections(recs: seq<Intersection>) returns (groupMap: map<string, seq<Intersection>>, order: seq<string>)
    ensures order == GroupOrder(recs)
    ensures forall g :: g in groupMap <==> g in order
    ensures forall g :: g in groupMap ==> groupMap[g] == Members(recs, g)
  {
    groupMap := map[];
    order := [];
    var i := 0;
    while i < |recs|
      invariant i <= |recs|
      invariant order == GroupOrder(recs[..i])
      invariant forall g :: g in groupMap <==> g in order
      invariant forall g :: g in groupMap ==> groupMap[g] == Members(recs[..i], g)
    {
      var r := recs[i];
      if r.group !in groupMap {
        MembersOfAbsentGroup(recs[..i], r.group);
        groupMap := groupMap[r.group := []];
        order := order + [r.group];
      }
      groupMap := groupMap[r.group := groupMap[r.group] + [r]];
      assert recs[..i + 1][..i] == recs[..i];
      i := i + 1;
    }
    assert recs[..i] == recs;
  }

  /** The `groupLetters` loop of one group. */
  method CollectLetters(x: Inputs, ms: seq<Intersection>) returns (letters: set<char>)
    requires Covers(x, ms)
    ensures letters == GroupLetters(x, ms)
  {
    letters := {};
    var j := 0;
    while j < |ms|
      invariant j <= |ms|
      invariant letters == GroupLetters(x, ms[..j])
    {
      var m := ms[j];
      var l1 := LetterAt(x, m.word1, m.pos1);
      var l2 := LetterAt(x, m.word2, m.pos2);
      if l1.Some? { letters := letters + {l1.value}; }
      if l2.Some? { letters := letters + {l2.value}; }
      assert ms[..j + 1][..j] == ms[..j];
      j := j + 1;
    }
    assert ms[..j] == ms;
  }

  /** The loop that pushes one conflict per disagreeing intersection of group `g`. */
  method PushConflicts(x: Inputs, ms: seq<Intersection>, g: string, conflicts: seq<Conflict>) returns (r: seq<Conflict>)
    requires Covers(x, ms)
    requires forall m :: m in ms ==> m.group == g
    ensures r == conflicts + GroupConflicts(x, ms)
  {
    r := conflicts;
    var j := 0;
    while j < |ms|
      invariant j <= |ms|
      invariant r == conflicts + GroupConflicts(x, ms[..j])
    {
      var m := ms[j];
      var l1 := LetterAt(x, m.word1, m.pos1);
      var l2 := LetterAt(x, m.word2, m.pos2);
      if l1.Some? && l2.Some? && l1.value != l2.value {
        r := r + [Conflict(m, l1.value, l2.value, g)];
      }
      assert ms[..j + 1][..j] == ms[..j];
      j := j + 1;
    }
    assert ms[..j] == ms;
  }

  /**
   * `checkIntersections`: groups the intersections by group id, collects each
   * group's letters, and for a group with more than one letter pushes one
   * conflict per intersection whose two letters differ.
   */
  method CheckIntersections(x: Inputs, recs: seq<Intersection>) returns (conflicts: seq<Conflict>)
    requires Covers(x, recs)
    ensures conflicts == ConflictsOf(x, recs)
  {
    var groupMap, order := GroupIntersections(recs);
    conflicts := [];
    var k := 0;
    while k < |order|
      invariant k <= |order|
      invariant conflicts == ConflictsFrom(x, recs, order[..k])
    {
      var g := order[k];
      var ms := groupMap[g];
      assert ms == Members(recs, g);
      ConflictsFromNext(x, recs, order, k);
      var letters := CollectLetters(x, ms);
      if |letters| > 1 {
        conflicts := PushConflicts(x, ms, g, conflicts);
      }
      k := k + 1;
    }
    assert order[..k] == order;
  }

  /** Visiting one more group of `order` appends that group's contribution. */
  lemma ConflictsFromNext(x: Inputs, recs: seq<Intersection>, order: seq<string>, k: nat)
    requires Covers(x, recs) && k < |order|
    ensures Covers(x, Members(recs, order[k]))
    ensures ConflictsFrom(x, recs, order[..k + 1]) == ConflictsFrom(x, recs, order[..k])
      + (if |GroupLetters(x, Members(recs, order[k]))| > 1 then GroupConflicts(x, Members(recs, order[k])) else [])
  {
    assert order[..k + 1][..k] == order[..k];
  }

  lemma {:induction false} MembersOfAbsentGroup(recs: seq<Intersection>, g: string)
    requires g !in GroupOrder(recs)
    ensures Members(recs, g) == []
  {
    if recs != [] {
      var pre := recs[..|recs| - 1];
      HasGroupSplit(recs, g);
      MembersOfAbsentGroup(pre, g);
      assert recs[|recs| - 1].group != g;
    }
  }

  // ----- What checkIntersections reports -----

  lemma {:induction false} LettersOfMember(x: Inputs, ms: seq<Intersection>, r: Intersection)
    requires Covers(x, ms) && r in ms
    ensures LetterAt(x, r.word1, r.pos1).Some? ==> LetterAt(x, r.word1, r.pos1).value in GroupLetters(x, ms)
    ensures LetterAt(x, r.word2, r.pos2).Some? ==> LetterAt(x, r.word2, r.pos2).value in GroupLetters(x, ms)
  {
    var pre := ms[..|ms| - 1];
    if r != ms[|ms| - 1] {
      assert r in pre;
      assert Covers(x, pre) by { assert forall m :: m in pre ==> m in ms; }
      LettersOfMember(x, pre, r);
    }
  }

  /** A group with a disagreeing intersection necessarily has more than one letter. */
  lemma {:induction false} DisagreementMeansTwoLetters(x: Inputs, ms: seq<Intersection>)
    requires Covers(x, ms) && GroupConflicts(x, ms) != []
    ensures |GroupLetters(x, ms)| > 1
  {
    var pre := ms[..|ms| - 1];
    assert Covers(x, pre) by { assert forall m :: m in pre ==> m in ms; }
    if GroupConflicts(x, pre) != [] {
      DisagreementMeansTwoLetters(x, pre);
      assert GroupLetters(x, pre) <= GroupLetters(x, ms);
      SubsetCard(GroupLetters(x, pre), GroupLetters(x, ms));
    } else {
      var r := ms[|ms| - 1];
      LettersOfMember(x, ms, r);
      var a, b := LetterAt(x, r.word1, r.pos1).value, LetterAt(x, r.word2, r.pos2).value;
      assert {a, b} <= GroupLetters(x, ms);
      SubsetCard({a, b}, GroupLetters(x, ms));
    }
  }

  lemma SubsetCard<T>(a: set<T>, b: set<T>)
    requires a <= b
    ensures |a| <= |b|
  {
    assert b == a + (b - a);
  }

  lemma {:induction false} GroupConflictsAreDisagreeIn(x: Inputs, recs: seq<Intersection>, g: string)
    requires Covers(x, recs)
    ensures Covers(x, Members(recs, g))
    ensures GroupConflicts(x, Members(recs, g)) == DisagreeIn(x, recs, {g})
  {
    if recs != [] {
      var pre := recs[..|recs| - 1];
      assert Covers(x, pre) by { assert forall m :: m in pre ==> m in recs; }
      GroupConflictsAreDisagreeIn(x, pre, g);
      var ms := Members(recs, g);
      if recs[|recs| - 1].group == g {
        assert ms[..|ms| - 1] == Members(pre, g);
      }
    }
  }

  /** Appending the same tail to a sum of two multisets' first part keeps the sum. */
  lemma AppendToSum<T>(all: seq<T>, some: seq<T>, one: seq<T>, t: seq<T>)
    requires multiset(all) == multiset(some) + multiset(one)
    ensures multiset(all + t) == multiset(some + t) + multiset(one)
    ensures multiset(all + t) == multiset(some) + multiset(one + t)
  {
    assert multiset(all + t) == multiset(all) + multiset(t);
    assert multiset(some + t) == multiset(some) + multiset(t);
    assert multiset(one + t) == multiset(one) + multiset(t);
  }

  lemma {:induction false} DisagreeInSplit(x: Inputs, recs: seq<Intersection>, gs: set<string>, g: string)
    requires Covers(x, recs) && g !in gs
    ensures multiset(DisagreeIn(x, recs, gs + {g})) == multiset(DisagreeIn(x, recs, gs)) + multiset(DisagreeIn(x, recs, {g}))
  {
    if recs != [] {
      var pre := recs[..|recs| - 1];
      var r := recs[|recs| - 1];
      assert Covers(x, pre) by { assert forall m :: m in pre ==> m in recs; }
      DisagreeInSplit(x, pre, gs, g);
      var all := DisagreeIn(x, pre, gs + {g});
      var some := DisagreeIn(x, pre, gs);
      var one := DisagreeIn(x, pre, {g});
      var t := if Disagree(x, r) then [ConflictOf(x, r)] else [];
      AppendToSum(all, some, one, t);
      if r.group == g {
        assert DisagreeIn(x, recs, gs + {g}) == all + t;
        assert DisagreeIn(x, recs, gs) == some;
        assert DisagreeIn(x, recs, {g}) == one + t;
      } else if r.group in gs {
        assert DisagreeIn(x, recs, gs + {g}) == all + t;
        assert DisagreeIn(x, recs, gs) == some + t;
        assert DisagreeIn(x, recs, {g}) == one;
      } else {
        assert DisagreeIn(x, recs, gs + {g}) == all;
        assert DisagreeIn(x, recs, gs) == some;
        assert DisagreeIn(x, recs, {g}) == one;
      }
    }
  }

  function GroupSet(gs: seq<string>): set<string>
  {
    set g | g in gs
  }

  /** What one group adds to the list, whether or not it passes the "more than one letter" test. */
  lemma GroupContribution(x: Inputs, recs: seq<Intersection>, g: string)
    requires Covers(x, recs)
    ensures Covers(x, Members(recs, g))
    ensures (if |GroupLetters(x, Members(recs, g))| > 1 then GroupConflicts(x, Members(recs, g)) else [])
         == DisagreeIn(x, recs, {g})
  {
    GroupConflictsAreDisagreeIn(x, recs, g);
    var ms := Members(recs, g);
    if |GroupLetters(x, ms)| <= 1 && GroupConflicts(x, ms) != [] {
      DisagreementMeansTwoLetters(x, ms);
    }
  }

  lemma GroupSetSnoc(gs: seq<string>)
    requires |gs| > 0
    ensures GroupSet(gs) == GroupSet(gs[..|gs| - 1]) + {gs[|gs| - 1]}
  {
    assert gs == gs[..|gs| - 1] + [gs[|gs| - 1]];
  }

  lemma {:induction false} ConflictsFromIsDisagreeIn(x: Inputs, recs: seq<Intersection>, gs: seq<string>)
    requires Covers(x, recs)
    requires forall i, j :: 0 <= i < j < |gs| ==> gs[i] != gs[j]
    ensures multiset(ConflictsFrom(x, recs, gs)) == multiset(DisagreeIn(x, recs, GroupSet(gs)))
  {
    if gs == [] {
      assert GroupSet(gs) == {};
      DisagreeInEmpty(x, recs);
    } else {
      var pre := gs[..|gs| - 1];
      var g := gs[|gs| - 1];
      ConflictsFromIsDisagreeIn(x, recs, pre);
      GroupContribution(x, recs, g);
      assert g !in GroupSet(pre);
      DisagreeInSplit(x, recs, GroupSet(pre), g);
      GroupSetSnoc(gs);
    }
  }

  lemma {:induction false} DisagreeInEmpty(x: Inputs, recs: seq<Intersection>)
    requires Covers(x, recs)
    ensures DisagreeIn(x, recs, {}) == []
  {
    if recs != [] {
      var pre := recs[..|recs| - 1];
      assert Covers(x, pre) by { assert forall m :: m in pre ==> m in recs; }
      DisagreeInEmpty(x, pre);
    }
  }

  lemma {:induction false} DisagreeInAll(x: Inputs, recs: seq<Intersection>, gs: set<string>)
    requires Covers(x, recs)
    requires forall i :: 0 <= i < |recs| ==> recs[i].group in gs
    ensures DisagreeIn(x, recs, gs) == Disagreements(x, recs)
  {
    if recs != [] {
      var pre := recs[..|recs| - 1];
      assert Covers(x, pre) by { assert forall m :: m in pre ==> m in recs; }
      DisagreeInAll(x, pre, gs);
    }
  }

  /**
   * `checkIntersections` reports exactly one conflict per intersection whose
   * two letters are both present and differ (a space counting as a letter),
   * whatever the groups: the "more than one letter" test never suppresses one.
   */
  lemma ConflictsExact(x: Inputs, recs: seq<Intersection>)
    requires Covers(x, recs)
    ensures multiset(ConflictsOf(x, recs)) == multiset(Disagreements(x, recs))
  {
    var order := GroupOrder(recs);
    ConflictsFromIsDisagreeIn(x, recs, order);
    DisagreeInAll(x, recs, GroupSet(order));
  }

  /** Every element of `Disagreements` comes from a disagreeing intersection, and each of those gives one. */
  lemma {:induction false} DisagreementsMembers(x: Inputs, recs: seq<Intersection>)
    requires Covers(x, recs)
    ensures forall c :: c in Disagreements(x, recs) ==>
      c.intersection in recs && Disagree(x, c.intersection) && c == ConflictOf(x, c.intersection)
    ensures forall i :: 0 <= i < |recs| && Disagree(x, recs[i]) ==> ConflictOf(x, recs[i]) in Disagreements(x, recs)
  {
    if recs != [] {
      var pre := recs[..|recs| - 1];
      assert Covers(x, pre) by { assert forall m :: m in pre ==> m in recs; }
      DisagreementsMembers(x, pre);
      forall i | 0 <= i < |recs| - 1 && Disagree(x, recs[i]) ensures ConflictOf(x, recs[i]) in Disagreements(x, recs) {
        assert recs[i] == pre[i];
      }
    }
  }

  // ----- The Check button -----

  /** The number of `true` entries of `bs`. */
  function CountTrue(bs: seq<bool>): nat
  {
    if bs == [] then 0 else CountTrue(bs[..|bs| - 1]) + (if bs[|bs| - 1] then 1 else 0)
  }

  /** Whether each word's value is correct, word by word. */
  function Verdicts(words: seq<Word>, x: Inputs): (r: seq<bool>)
    requires |x| == |words|
    ensures |r| == |words|
    ensures forall w :: 0 <= w < |words| ==> (r[w] <==> IsCorrect(words[w], x[w]))
  {
    seq(|words|, w requires 0 <= w < |words| => IsCorrect(words[w], x[w]))
  }

  /** The number of words whose value is correct. */
  function CountCorrect(words: seq<Word>, x: Inputs): nat
    requires |x| == |words|
  {
    CountTrue(Verdicts(words, x))
  }

  /** `CountTrue` is the number of indices holding `true`. */
  lemma {:induction false} CountTrueIsCard(bs: seq<bool>)
    ensures CountTrue(bs) == |set i | 0 <= i < |bs| && bs[i]|
  {
    if bs != [] {
      var n := |bs| - 1;
      var pre := bs[..n];
      CountTrueIsCard(pre);
      var before := set i | 0 <= i < |pre| && pre[i];
      var after := set i | 0 <= i < |bs| && bs[i];
      if bs[n] {
        assert after == before + {n};
      } else {
        assert after == before;
      }
    }
  }

  /** The tally of the Check button is the number of words whose value is correct. */
  lemma CountCorrectIsCard(words: seq<Word>, x: Inputs)
    requires |x| == |words|
    ensures CountCorrect(words, x) == |set w | 0 <= w < |words| && IsCorrect(words[w], x[w])|
  {
    var bs := Verdicts(words, x);
    CountTrueIsCard(bs);
    assert (set i | 0 <= i < |bs| && bs[i]) == set w | 0 <= w < |words| && IsCorrect(words[w], x[w]);
  }

  /** `[...new Set(groups)]`: the groups without repeats, in order of first appearance. */
  function Dedup(s: seq<string>): (r: seq<string>)
    ensures forall g :: g in r <==> g in s
    ensures forall i, j :: 0 <= i < j < |r| ==> r[i] != r[j]
  {
    if s == [] then []
    else
      var pre := Dedup(s[..|s| - 1]);
      assert forall g :: g in s[..|s| - 1] ==> g in s;
      assert forall g :: g in s ==> g in s[..|s| - 1] || g == s[|s| - 1];
      if s[|s| - 1] in pre then pre else pre + [s[|s| - 1]]
  }

  function GroupsOf(cs: seq<Conflict>): (r: seq<string>)
    ensures |r| == |cs| && forall i :: 0 <= i < |cs| ==> r[i] == cs[i].group
  {
    seq(|cs|, i requires 0 <= i < |cs| => cs[i].group)
  }

  /** The four toast outcomes of the Check button. */
  datatype Outcome =
    | ConflictsFound(groups: seq<string>)
    | NoneCorrect
    | SomeCorrect(correct: nat, total: nat)
    | AllCorrect

  /** The outcome, chosen in the source's order of precedence. */
  function OutcomeOf(words: seq<Word>, recs: seq<Intersection>, x: Inputs): Outcome
    requires |x| == |words| && Covers(x, recs)
  {
    var conflicts := ConflictsOf(x, recs);
    var correct := CountCorrect(words, x);
    if |conflicts| > 0 then ConflictsFound(Dedup(GroupsOf(conflicts)))
    else if correct == 0 then NoneCorrect
    else if correct < |words| then SomeCorrect(correct, |words|)
    else AllCorrect
  }

  /**
   * The Check button: count the correct words, collect the conflicts, and pick
   * the toast: conflicts first, then none correct, then some, then all.
   */
  method CheckButton(words: seq<Word>, recs: seq<Intersection>, x: Inputs) returns (outcome: Outcome)
    requires |x| == |words| && Covers(x, recs)
    ensures outcome == OutcomeOf(words, recs, x)
  {
    var correct := 0;
    var i := 0;
    while i < |words|
      invariant i <= |words|
      invariant correct == CountTrue(Verdicts(words, x)[..i])
    {
      if ToUpper(Trim(x[i])) == words[i].answer {
        correct := correct + 1;
      }
      assert Verdicts(words, x)[..i + 1][..i] == Verdicts(words, x)[..i];
      i := i + 1;
    }
    assert Verdicts(words, x)[..i] == Verdicts(words, x);
    var conflicts := CheckIntersections(x, recs);
    if |conflicts| > 0 {
      outcome := ConflictsFound(Dedup(GroupsOf(conflicts)));
    } else if correct == 0 {
      outcome := NoneCorrect;
    } else if correct < |words| {
      outcome := SomeCorrect(correct, |words|);
    } else {
      outcome := AllCorrect;
    }
  }

  /** The count is at most the length, and reaches it (or zero) exactly when every entry is `true` (or `false`). */
  lemma {:induction false} CountTrueBounds(bs: seq<bool>)
    ensures CountTrue(bs) <= |bs|
    ensures CountTrue(bs) == |bs| <==> forall i :: 0 <= i < |bs| ==> bs[i]
    ensures CountTrue(bs) == 0 <==> forall i :: 0 <= i < |bs| ==> !bs[i]
  {
    if bs != [] {
      var pre := bs[..|bs| - 1];
      CountTrueBounds(pre);
      assert forall i :: 0 <= i < |pre| ==> pre[i] == bs[i];
    }
  }

  /** Some intersection of `recs` holds two different letters. */
  predicate AnyDisagree(x: Inputs, recs: seq<Intersection>)
    requires Covers(x, recs)
  {
    exists i :: 0 <= i < |recs| && Disagree(x, recs[i])
  }

  /** Some intersection of group `g` holds two different letters. */
  predicate GroupDisagrees(x: Inputs, recs: seq<Intersection>, g: string)
    requires Covers(x, recs)
  {
    exists i :: 0 <= i < |recs| && Disagree(x, recs[i]) && recs[i].group == g
  }

  /** The reported conflicts are, as a set, one per disagreeing intersection. */
  lemma ConflictsAsSet(x: Inputs, recs: seq<Intersection>)
    requires Covers(x, recs)
    ensures forall c :: c in ConflictsOf(x, recs) <==> c in Disagreements(x, recs)
  {
    ConflictsExact(x, recs);
    var cs := ConflictsOf(x, recs);
    forall c ensures c in cs <==> c in Disagreements(x, recs) {
      assert c in cs <==> c in multiset(cs);
    }
  }

  /** Conflicts are reported exactly when some intersection disagrees. */
  lemma ConflictsIffDisagree(x: Inputs, recs: seq<Intersection>)
    requires Covers(x, recs)
    ensures ConflictsOf(x, recs) != [] <==> AnyDisagree(x, recs)
  {
    var cs := ConflictsOf(x, recs);
    ConflictsAsSet(x, recs);
    DisagreementsMembers(x, recs);
    if AnyDisagree(x, recs) {
      var i :| 0 <= i < |recs| && Disagree(x, recs[i]);
      assert ConflictOf(x, recs[i]) in cs;
    }
    if cs != [] {
      assert cs[0] in cs;
      var i :| 0 <= i < |recs| && recs[i] == cs[0].intersection;
    }
  }

  /** The groups named by the conflicts are exactly the groups with a disagreeing intersection. */
  lemma ConflictGroups(x: Inputs, recs: seq<Intersection>, g: string)
    requires Covers(x, recs)
    ensures g in GroupsOf(ConflictsOf(x, recs)) <==> GroupDisagrees(x, recs, g)
  {
    var cs := ConflictsOf(x, recs);
    var gs := GroupsOf(cs);
    ConflictsAsSet(x, recs);
    DisagreementsMembers(x, recs);
    if g in gs {
      var k :| 0 <= k < |gs| && gs[k] == g;
      assert cs[k] in cs;
      var i :| 0 <= i < |recs| && recs[i] == cs[k].intersection;
    }
    if GroupDisagrees(x, recs, g) {
      var i :| 0 <= i < |recs| && Disagree(x, recs[i]) && recs[i].group == g;
      var c := ConflictOf(x, recs[i]);
      assert c in cs;
      var k :| 0 <= k < |cs| && cs[k] == c;
      assert gs[k] == g;
    }
  }

  /**
   * The conflict toast lists each group with a disagreeing intersection, once
   * each, and no other group.
   */
  lemma ConflictToast(words: seq<Word>, recs: seq<Intersection>, x: Inputs)
    requires |x| == |words| && Covers(x, recs)
    ensures OutcomeOf(words, recs, x).ConflictsFound? <==> AnyDisagree(x, recs)
    ensures OutcomeOf(words, recs, x).ConflictsFound? ==>
      var gs := OutcomeOf(words, recs, x).groups;
      && (forall i, j :: 0 <= i < j < |gs| ==> gs[i] != gs[j])
      && forall g :: g in gs <==> GroupDisagrees(x, recs, g)
  {
    ConflictsIffDisagree(x, recs);
    forall g ensures g in GroupsOf(ConflictsOf(x, recs)) <==> GroupDisagrees(x, recs, g) {
      ConflictGroups(x, recs, g);
    }
  }

  /**
   * Without disagreements the toast reports the tally: "none correct" when no
   * word is correct, the count out of the total when some are, and the victory
   * ("all correct") only when there is at least one word and every one is correct.
   */
  lemma TallyToast(words: seq<Word>, recs: seq<Intersection>, x: Inputs)
    requires |x| == |words| && Covers(x, recs)
    ensures OutcomeOf(words, recs, x) == AllCorrect <==>
      && !AnyDisagree(x, recs)
      && |words| > 0
      && forall w :: 0 <= w < |words| ==> IsCorrect(words[w], x[w])
    ensures OutcomeOf(words, recs, x) == NoneCorrect <==>
      && !AnyDisagree(x, recs)
      && forall w :: 0 <= w < |words| ==> !IsCorrect(words[w], x[w])
    ensures OutcomeOf(words, recs, x).SomeCorrect? ==>
      && 0 < OutcomeOf(words, recs, x).correct < |words| == OutcomeOf(words, recs, x).total
      && OutcomeOf(words, recs, x).correct == CountCorrect(words, x)
  {
    ConflictsIffDisagree(x, recs);
    CountTrueBounds(Verdicts(words, x));
  }
}
