/**
 * The intersection index: for every cell that some intersection mentions, the
 * group of the first intersection that mentioned it, that group's colour, and
 * the list of cells it is connected to (one entry per intersection, in order).
 */
module IntersectionIndex {
  import opened Wrappers
  import opened JsText
  import opened Puzzle

  datatype Entry = Entry(group: string, color: Option<nat>, connected: seq<Cell>)

  type Index = map<Cell, Entry>

  /** Length of the `groupNumberColors` table. */
  const ColorCount: nat := 10

  /** `group.charCodeAt(0) - 64`, so A=1, B=2, ...; `None` is the NaN of an empty group id. */
  function GroupNumber(group: string): (r: Option<int>)
    ensures r.Some? <==> |group| > 0
    ensures |group| > 0 && IsUpperLetter(group[0]) ==> r == Some(group[0] as int - 64) && 1 <= r.value <= 26
  {
    match FirstCodeUnit(group)
    case None => None
    case Some(unit) => Some(unit - 64)
  }

  /** Integer division rounding toward zero, the quotient JavaScript's `%` pairs with. */
  function TruncDiv(a: int, b: int): int
    requires b > 0
  {
    if a >= 0 then a / b else -((-a) / b)
  }

  /** JavaScript's `%`, whose result takes the sign of the dividend. */
  function JsRem(a: int, b: int): (r: int)
    requires b > 0
    ensures a == b * TruncDiv(a, b) + r
    ensures a >= 0 ==> 0 <= r < b && r == a % b
    ensures a < 0 ==> -b < r <= 0
  {
    if a >= 0 then a % b else -((-a) % b)
  }

  /**
   * The index into `groupNumberColors` picked by `(groupNumber - 1) % length`;
   * `None` where that lookup is `undefined` (a NaN or negative index). Below
   * 'A' the truncating remainder is negative, except on multiples of 10.
   */
  function ColorIndex(group: string): (r: Option<nat>)
    ensures r.Some? ==> r.value < ColorCount
    ensures |group| == 0 ==> r == None
    ensures |group| > 0 && IsUpperLetter(group[0]) ==> r == Some((group[0] as int - 65) % ColorCount)
    ensures |group| > 0 ==>
      var unit := FirstCodeUnit(group).value;
      r == if unit >= 65 then Some((unit - 65) % ColorCount)
           else if (65 - unit) % ColorCount == 0 then Some(0)
           else None
  {
    match GroupNumber(group)
    case None => None
    case Some(n) =>
      var i := JsRem(n - 1, ColorCount);
      if i >= 0 then Some(i) else None
  }

  /** Append `other` to the entry of `k`, creating the entry with `group` and `color` if `k` is new. */
  function Register(m: Index, k: Cell, other: Cell, group: string, color: Option<nat>): Index
  {
    if k in m then m[k := m[k].(connected := m[k].connected + [other])]
    else m[k := Entry(group, color, [other])]
  }

  /** What one intersection adds: each endpoint is registered against the other. */
  function AddIntersection(m: Index, r: Intersection): Index
  {
    var color := ColorIndex(r.group);
    Register(Register(m, Key1(r), Key2(r), r.group, color), Key2(r), Key1(r), r.group, color)
  }

  /** The index `buildIntersectionMap` leaves behind for the intersections `recs`. */
  function IndexOf(recs: seq<Intersection>): Index
  {
    if recs == [] then map[]
    else AddIntersection(IndexOf(recs[..|recs| - 1]), recs[|recs| - 1])
  }

  predicate Touches(r: Intersection, k: Cell)
  {
    Key1(r) == k || Key2(r) == k
  }

  /** Reference definition: the opposite endpoint of every intersection touching `k`, in list order. */
  function Opposites(recs: seq<Intersection>, k: Cell): seq<Cell>
  {
    if recs == [] then []
    else
      var r := recs[|recs| - 1];
      Opposites(recs[..|recs| - 1], k)
        + (if Key1(r) == k then [Key2(r)] else [])
        + (if Key2(r) == k then [Key1(r)] else [])
  }

  /** `getIntersectionInfo`: the entry of a cell, or `None` (the source's `null`). */
  function GetIntersectionInfo(index: Index, c: Cell): Option<Entry>
  {
    if c in index then Some(index[c]) else None
  }

  /**
   * `buildIntersectionMap`: fills the map one intersection at a time, each
   * endpoint either creating its entry or appending to its connected list.
   */
  method BuildIntersectionMap(recs: seq<Intersection>) returns (m: Index)
    ensures m == IndexOf(recs)
  {
    m := map[];
    var i := 0;
    while i < |recs|
      invariant i <= |recs|
      invariant m == IndexOf(recs[..i])
    {
      var r := recs[i];
      var color := ColorIndex(r.group);
      var key1 := Key1(r);
      var key2 := Key2(r);
      if key1 !in m {
        m := m[key1 := Entry(r.group, color, [key2])];
      } else {
        m := m[key1 := m[key1].(connected := m[key1].connected + [key2])];
      }
      if key2 !in m {
        m := m[key2 := Entry(r.group, color, [key1])];
      } else {
        m := m[key2 := m[key2].(connected := m[key2].connected + [key1])];
      }
      assert recs[..i + 1][..i] == recs[..i];
      i := i + 1;
    }
    assert recs[..i] == recs;
  }

  /**
   * A cell has an entry exactly when some intersection touches it, and its
   * connected list is the opposite endpoints of those intersections in order:
   * later intersections only append, they never replace.
   */
  lemma {:induction false} IndexConnected(recs: seq<Intersection>, k: Cell)
    ensures k in IndexOf(recs) <==> exists i :: 0 <= i < |recs| && Touches(recs[i], k)
    ensures k in IndexOf(recs) ==> IndexOf(recs)[k].connected == Opposites(recs, k)
    ensures k !in IndexOf(recs) ==> Opposites(recs, k) == []
  {
    if recs != [] {
      var pre := recs[..|recs| - 1];
      var r := recs[|recs| - 1];
      IndexConnected(pre, k);
      if k in IndexOf(recs) && !Touches(r, k) {
        var i :| 0 <= i < |pre| && Touches(pre[i], k);
        assert recs[i] == pre[i];
      }
      if exists i :: 0 <= i < |recs| && Touches(recs[i], k) {
        var i :| 0 <= i < |recs| && Touches(recs[i], k);
        if i < |pre| {
          assert pre[i] == recs[i];
        }
      }
    }
  }

  /** The connected lists are symmetric, counting multiplicity. */
  lemma {:induction false} OppositesSymmetric(recs: seq<Intersection>, a: Cell, b: Cell)
    ensures multiset(Opposites(recs, a))[b] == multiset(Opposites(recs, b))[a]
  {
    if recs != [] {
      OppositesSymmetric(recs[..|recs| - 1], a, b);
    }
  }

  /**
   * Index symmetry: if `a` lists `b` as connected then `b` has an entry that
   * lists `a`, and both list each other equally often.
   */
  lemma IndexSymmetric(recs: seq<Intersection>, a: Cell, b: Cell)
    requires a in IndexOf(recs)
    ensures b in IndexOf(recs)[a].connected ==> b in IndexOf(recs) && a in IndexOf(recs)[b].connected
    ensures b in IndexOf(recs) ==> multiset(IndexOf(recs)[a].connected)[b] == multiset(IndexOf(recs)[b].connected)[a]
  {
    IndexConnected(recs, a);
    IndexConnected(recs, b);
    OppositesSymmetric(recs, a, b);
    if b in IndexOf(recs)[a].connected {
      assert multiset(Opposites(recs, b))[a] > 0;
    }
  }

  /**
   * The first intersection touching a cell fixes the group and colour of its
   * entry; later intersections touching it change neither.
   */
  lemma {:induction false} IndexGroupFromFirst(recs: seq<Intersection>, k: Cell, i: nat)
    requires i < |recs| && Touches(recs[i], k)
    requires forall j :: 0 <= j < i ==> !Touches(recs[j], k)
    ensures k in IndexOf(recs)
    ensures IndexOf(recs)[k].group == recs[i].group
    ensures IndexOf(recs)[k].color == ColorIndex(recs[i].group)
  {
    var pre := recs[..|recs| - 1];
    if i == |recs| - 1 {
      IndexConnected(pre, k);
    } else {
      assert pre[i] == recs[i];
      forall j | 0 <= j < i ensures !Touches(pre[j], k) {
        assert pre[j] == recs[j];
      }
      IndexGroupFromFirst(pre, k, i);
    }
  }

  /** Every cell the index mentions, as key or as connected cell, is an endpoint of some intersection. */
  lemma IndexCellsAreEndpoints(recs: seq<Intersection>, k: Cell, c: Cell)
    requires k in IndexOf(recs) && c in IndexOf(recs)[k].connected
    ensures exists i :: 0 <= i < |recs| && Touches(recs[i], k) && Touches(recs[i], c)
  {
    IndexConnected(recs, k);
    OppositeIsEndpoint(recs, k, c);
  }

  lemma {:induction false} OppositeIsEndpoint(recs: seq<Intersection>, k: Cell, c: Cell)
    requires c in Opposites(recs, k)
    ensures exists i :: 0 <= i < |recs| && Touches(recs[i], k) && Touches(recs[i], c)
  {
    var pre := recs[..|recs| - 1];
    var r := recs[|recs| - 1];
    if c in Opposites(pre, k) {
      OppositeIsEndpoint(pre, k, c);
      var i :| 0 <= i < |pre| && Touches(pre[i], k) && Touches(pre[i], c);
      assert recs[i] == pre[i];
    } else {
      assert Touches(recs[|recs| - 1], k) && Touches(recs[|recs| - 1], c);
    }
  }

  /** Every key of the index and every cell it lists lies inside the answers of existing words. */
  predicate IndexWithin(index: Index, words: seq<Word>)
  {
    forall k :: k in index ==>
      && CellOk(words, k)
      && forall c :: c in index[k].connected ==> CellOk(words, c)
  }

  /** For a well-formed puzzle the index only mentions cells inside the grid. */
  lemma IndexWithinPuzzle(p: PuzzleDef)
    requires WellFormed(p)
    ensures IndexWithin(IndexOf(p.intersections), p.words)
  {
    var recs := p.intersections;
    forall k | k in IndexOf(recs)
      ensures CellOk(p.words, k)
      ensures forall c :: c in IndexOf(recs)[k].connected ==> CellOk(p.words, c)
    {
      IndexConnected(recs, k);
      var i :| 0 <= i < |recs| && Touches(recs[i], k);
      assert IntersectionOk(p.words, recs[i]);
      forall c | c in IndexOf(recs)[k].connected ensures CellOk(p.words, c) {
        IndexCellsAreEndpoints(recs, k, c);
        var j :| 0 <= j < |recs| && Touches(recs[j], k) && Touches(recs[j], c);
        assert IntersectionOk(p.words, recs[j]);
      }
    }
  }
}
