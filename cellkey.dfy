/**
 * The string keys of the intersection map. A cell is stored under
 * `${wordIndex}-${letterPos}` and read back with `split("-").map(Number)`.
 * The lemmas here show that this encoding is injective and round-trips, which
 * is what lets the rest of the model key the map by `Cell` directly.
 */
module CellKey {
  import opened Puzzle

  function DigitChar(d: nat): char
    requires d < 10
  {
    ('0' as int + d) as char
  }

  predicate IsDigit(c: char)
  {
    '0' <= c <= '9'
  }

  predicate AllDigits(s: string)
  {
    forall i :: 0 <= i < |s| ==> IsDigit(s[i])
  }

  /** The decimal text of a natural number, as a template literal prints it. */
  function Decimal(n: nat): (r: string)
    ensures |r| > 0 && AllDigits(r)
  {
    if n < 10 then [DigitChar(n)] else Decimal(n / 10) + [DigitChar(n % 10)]
  }

  /** `Number(s)` for a non-empty string of decimal digits. */
  function DecimalValue(s: string): nat
    requires AllDigits(s)
  {
    if s == [] then 0
    else DecimalValue(s[..|s| - 1]) * 10 + (s[|s| - 1] as int - '0' as int)
  }

  /** `s.split("-")`: the maximal dash-free pieces, in order. */
  function SplitDash(s: string): (r: seq<string>)
    ensures |r| > 0
  {
    if s == [] then [""]
    else if s[0] == '-' then [""] + SplitDash(s[1..])
    else
      var rest := SplitDash(s[1..]);
      [[s[0]] + rest[0]] + rest[1..]
  }

  /** The map key of a cell. */
  function KeyOf(c: Cell): string
  {
    Decimal(c.word) + "-" + Decimal(c.pos)
  }

  /** `key.split("-").map(Number)` destructured into `[targetWordIndex, targetPos]`. */
  function ParseKey(key: string): (r: Cell)
    requires |SplitDash(key)| >= 2 && AllDigits(SplitDash(key)[0]) && AllDigits(SplitDash(key)[1])
  {
    var parts := SplitDash(key);
    Cell(DecimalValue(parts[0]), DecimalValue(parts[1]))
  }

  lemma {:induction false} DecimalRoundTrip(n: nat)
    ensures DecimalValue(Decimal(n)) == n
  {
    if n >= 10 {
      var s := Decimal(n);
      assert s[..|s| - 1] == Decimal(n / 10);
      DecimalRoundTrip(n / 10);
    }
  }

  lemma {:induction false} SplitNoDash(a: string, b: string)
    requires forall i :: 0 <= i < |a| ==> a[i] != '-'
    ensures SplitDash(a + "-" + b) == [a] + SplitDash(b)
  {
    if a == [] {
      assert a + "-" + b == "-" + b;
      assert ("-" + b)[1..] == b;
    } else {
      assert (a + "-" + b)[1..] == a[1..] + "-" + b;
      SplitNoDash(a[1..], b);
      assert [a[0]] + a[1..] == a;
    }
  }

  lemma {:induction false} SplitDashFree(a: string)
    requires forall i :: 0 <= i < |a| ==> a[i] != '-'
    ensures SplitDash(a) == [a]
  {
    if a != [] {
      SplitDashFree(a[1..]);
      assert [a[0]] + a[1..] == a;
    }
  }

  /** Parsing a key gives back the cell it was made from. */
  lemma KeyRoundTrip(c: Cell)
    ensures SplitDash(KeyOf(c)) == [Decimal(c.word), Decimal(c.pos)]
    ensures ParseKey(KeyOf(c)) == c
  {
    SplitNoDash(Decimal(c.word), Decimal(c.pos));
    SplitDashFree(Decimal(c.pos));
    DecimalRoundTrip(c.word);
    DecimalRoundTrip(c.pos);
  }

  /** Distinct cells have distinct keys, so the string-keyed map is a map on cells. */
  lemma KeyInjective(a: Cell, b: Cell)
    ensures KeyOf(a) == KeyOf(b) <==> a == b
  {
    if KeyOf(a) == KeyOf(b) {
      KeyRoundTrip(a);
      KeyRoundTrip(b);
    }
  }
}
