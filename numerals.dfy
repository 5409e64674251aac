/** Elbonian numerals: the eight symbols, their weights and multiplicity
    limits, the value a numeral denotes, the validator's rule as the
    converter applies it, and the greedy encoder with its correctness. */
module Numerals {

  /** The symbols in canonical order N, M, D, C, Y, X, J, I, highest weight
      first; a symbol's position in that order is its rank. */
  function Symbol(k: nat): (c: char)
    requires k < 8
  {
    match k
    case 0 => 'N'
    case 1 => 'M'
    case 2 => 'D'
    case 3 => 'C'
    case 4 => 'Y'
    case 5 => 'X'
    case 6 => 'J'
    case 7 => 'I'
  }

  function Weight(k: nat): (w: nat)
    requires k < 8
    ensures w >= 1
  {
    match k
    case 0 => 3000
    case 1 => 1000
    case 2 => 300
    case 3 => 100
    case 4 => 30
    case 5 => 10
    case 6 => 3
    case 7 => 1
  }

  /** Rank of a character in the canonical order; 8 for a non-symbol. */
  function Rank(c: char): (k: nat)
    ensures k <= 8
    ensures k < 8 ==> Symbol(k) == c
  {
    match c
    case 'N' => 0
    case 'M' => 1
    case 'D' => 2
    case 'C' => 3
    case 'Y' => 4
    case 'X' => 5
    case 'J' => 6
    case 'I' => 7
    case _ => 8
  }

  lemma RankOfSymbol(k: nat)
    requires k < 8
    ensures Rank(Symbol(k)) == k
  {
  }

  /** Weight of a single character; a non-symbol weighs nothing. */
  function CharWeight(c: char): nat {
    if Rank(c) < 8 then Weight(Rank(c)) else 0
  }

  function Count(s: string, c: char): nat {
    if s == [] then 0 else (if s[0] == c then 1 else 0) + Count(s[1..], c)
  }

  /** The sum the decoder forms: each symbol's count times its weight. */
  function Tally(s: string): int {
    1000 * Count(s, 'M') + 100 * Count(s, 'C') + 10 * Count(s, 'X') + Count(s, 'I')
    + 3000 * Count(s, 'N') + 300 * Count(s, 'D') + 30 * Count(s, 'Y') + 3 * Count(s, 'J')
  }

  /** The value of a numeral read character by character: the independent
      reference the decoder's sum is compared against. */
  function Value(s: string): nat {
    if s == [] then 0 else CharWeight(s[0]) + Value(s[1..])
  }

  predicate IsSymbol(c: char) {
    Rank(c) < 8
  }

  /** Every symbol is a capital letter between C and Y. */
  lemma SymbolIsLetter(c: char)
    requires IsSymbol(c)
    ensures 'C' <= c <= 'Y'
  {
  }

  predicate InAlphabet(s: string) {
    forall i | 0 <= i < |s| :: IsSymbol(s[i])
  }

  /** N, D, Y and J at most three times; M, C, X and I at most twice. */
  predicate WithinLimits(s: string) {
    && Count(s, 'M') <= 2 && Count(s, 'C') <= 2 && Count(s, 'X') <= 2 && Count(s, 'I') <= 2
    && Count(s, 'N') <= 3 && Count(s, 'D') <= 3 && Count(s, 'Y') <= 3 && Count(s, 'J') <= 3
  }

  /** In each place pair, three of the larger symbol exclude the smaller one. */
  predicate PlacePairsHold(s: string) {
    && !(Count(s, 'N') >= 3 && Count(s, 'M') > 0)
    && !(Count(s, 'D') >= 3 && Count(s, 'C') > 0)
    && !(Count(s, 'Y') >= 3 && Count(s, 'X') > 0)
    && !(Count(s, 'J') >= 3 && Count(s, 'I') > 0)
  }

  /** What the converter's validator accepts: only symbols, within the
      limits, place pairs respected. The order of the symbols is not looked at. */
  predicate ValidElbonian(s: string) {
    InAlphabet(s) && WithinLimits(s) && PlacePairsHold(s)
  }

  /** The intended layout: symbols grouped and sorted by rank. */
  predicate Ordered(s: string) {
    forall i, j | 0 <= i < j < |s| :: Rank(s[i]) <= Rank(s[j])
  }

  function Rep(c: char, n: nat): (r: string)
    ensures |r| == n
  {
    if n == 0 then [] else [c] + Rep(c, n - 1)
  }

  /** The greedy encoder from rank `k` on: take the symbol of rank `k` while
      its weight still fits, then move to the next rank. */
  function Greedy(v: int, k: nat): string
    requires k <= 8
    decreases 8 - k, v
  {
    if k == 8 then []
    else if v >= Weight(k) then [Symbol(k)] + Greedy(v - Weight(k), k)
    else Greedy(v, k + 1)
  }

  function Encode(v: int): string {
    Greedy(v, 0)
  }

  /** One decimal digit in one place pair: the larger symbol stands for three
      units of the place, the smaller for one. */
  function PlaceSpelling(d: nat, big: char, small: char): string {
    Rep(big, d / 3) + Rep(small, d % 3)
  }

  /** The numeral written place by place from the thousands, hundreds, tens
      and units digits. */
  function DigitsSpelling(t: nat, h: nat, e: nat, u: nat): string {
    PlaceSpelling(t, 'N', 'M') + (PlaceSpelling(h, 'D', 'C')
    + (PlaceSpelling(e, 'Y', 'X') + PlaceSpelling(u, 'J', 'I')))
  }

  // ---------------------------------------------------------------------
  // Counting

  lemma {:induction false} CountAppend(a: string, b: string, c: char)
    ensures Count(a + b, c) == Count(a, c) + Count(b, c)
  {
    if a == [] {
      assert a + b == b;
    } else {
      assert (a + b)[1..] == a[1..] + b;
      CountAppend(a[1..], b, c);
    }
  }

  /** Extending a prefix by one character adds one to that character's count only. */
  lemma CountPrefix(s: string, i: nat, c: char)
    requires i < |s|
    ensures Count(s[..i + 1], c) == Count(s[..i], c) + (if s[i] == c then 1 else 0)
  {
    assert s[..i + 1] == s[..i] + [s[i]];
    CountAppend(s[..i], [s[i]], c);
  }

  lemma {:induction false} CountRep(c: char, n: nat, d: char)
    ensures Count(Rep(c, n), d) == if c == d then n else 0
  {
    if n > 0 {
      assert Rep(c, n)[1..] == Rep(c, n - 1);
      CountRep(c, n - 1, d);
    }
  }

  lemma {:induction false} CountAbsent(s: string, c: char)
    requires forall i | 0 <= i < |s| :: s[i] != c
    ensures Count(s, c) == 0
  {
    if s != [] {
      CountAbsent(s[1..], c);
    }
  }

  lemma CountPlace(d: nat, big: char, small: char, c: char)
    requires big != small
    ensures Count(PlaceSpelling(d, big, small), c)
            == (if c == big then d / 3 else 0) + (if c == small then d % 3 else 0)
  {
    CountAppend(Rep(big, d / 3), Rep(small, d % 3), c);
    CountRep(big, d / 3, c);
    CountRep(small, d % 3, c);
  }

  // ---------------------------------------------------------------------
  // Decoding

  /** The decoder's weighted sum of counts equals the character-by-character value. */
  lemma {:induction false} TallyIsValue(s: string)
    ensures Tally(s) == Value(s)
  {
    if s != [] {
      TallyIsValue(s[1..]);
    }
  }

  /** A numeral the validator accepts denotes a value in 0..9999, and at least 1
      unless it is empty. */
  lemma TallyRange(s: string)
    requires ValidElbonian(s)
    ensures 0 <= Tally(s) <= 9999
    ensures s != [] ==> Tally(s) >= 1
  {
    if s != [] {
      TallyIsValue(s);
      assert Value(s) >= CharWeight(s[0]);
      assert IsSymbol(s[0]);
    }
  }

  // ---------------------------------------------------------------------
  // The greedy encoder

  lemma {:induction false} GreedyInAlphabet(v: int, k: nat)
    requires k <= 8
    ensures InAlphabet(Greedy(v, k))
    ensures forall i | 0 <= i < |Greedy(v, k)| :: Rank(Greedy(v, k)[i]) >= k
    decreases 8 - k, v
  {
    if k < 8 {
      RankOfSymbol(k);
      if v >= Weight(k) {
        GreedyInAlphabet(v - Weight(k), k);
      } else {
        GreedyInAlphabet(v, k + 1);
      }
    }
  }

  /** The greedy output is grouped and sorted in canonical order. */
  lemma {:induction false} GreedyOrdered(v: int, k: nat)
    requires k <= 8
    ensures Ordered(Greedy(v, k))
    decreases 8 - k, v
  {
    if k < 8 {
      if v >= Weight(k) {
        GreedyOrdered(v - Weight(k), k);
        GreedyInAlphabet(v - Weight(k), k);
        RankOfSymbol(k);
      } else {
        GreedyOrdered(v, k + 1);
      }
    }
  }

  /** What the greedy encoder emits from rank `k` on adds up to what was left,
      for every non-negative remainder. */
  lemma {:induction false} GreedyValue(v: int, k: nat)
    requires 0 <= v && k < 8
    ensures Value(Greedy(v, k)) == v
    decreases 8 - k, v
  {
    if v >= Weight(k) {
      GreedyValue(v - Weight(k), k);
      RankOfSymbol(k);
    } else if k < 7 {
      GreedyValue(v, k + 1);
    }
  }

  /** The greedy encoder takes `q` copies of the symbol of rank `k` from a
      remainder of `q` times its weight plus less than one weight, and
      continues with what is left. */
  lemma {:induction false} GreedyRun(q: nat, r: nat, k: nat)
    requires k < 8 && r < Weight(k)
    ensures Greedy(Weight(k) * q + r, k) == Rep(Symbol(k), q) + Greedy(r, k + 1)
  {
    if q > 0 {
      MultipleStep(Weight(k), q);
      GreedyRun(q - 1, r, k);
    }
  }

  lemma MultipleStep(w: nat, q: nat)
    requires q > 0
    ensures w * q == w * (q - 1) + w
  {
  }

  /** Counts of the place-by-place spelling: each digit splits into its
      place pair. */
  lemma DigitsSpellingCounts(t: nat, h: nat, e: nat, u: nat)
    ensures Count(DigitsSpelling(t, h, e, u), 'N') == t / 3
    ensures Count(DigitsSpelling(t, h, e, u), 'M') == t % 3
    ensures Count(DigitsSpelling(t, h, e, u), 'D') == h / 3
    ensures Count(DigitsSpelling(t, h, e, u), 'C') == h % 3
    ensures Count(DigitsSpelling(t, h, e, u), 'Y') == e / 3
    ensures Count(DigitsSpelling(t, h, e, u), 'X') == e % 3
    ensures Count(DigitsSpelling(t, h, e, u), 'J') == u / 3
    ensures Count(DigitsSpelling(t, h, e, u), 'I') == u % 3
  {
    var a := PlaceSpelling(t, 'N', 'M');
    var b := PlaceSpelling(h, 'D', 'C');
    var c := PlaceSpelling(e, 'Y', 'X');
    var d := PlaceSpelling(u, 'J', 'I');
    forall sym: char
      ensures Count(DigitsSpelling(t, h, e, u), sym)
              == Count(a, sym) + Count(b, sym) + Count(c, sym) + Count(d, sym)
    {
      CountAppend(c, d, sym);
      CountAppend(b, c + d, sym);
      CountAppend(a, b + (c + d), sym);
    }
    forall sym: char
      ensures Count(a, sym) == (if sym == 'N' then t / 3 else 0) + (if sym == 'M' then t % 3 else 0)
      ensures Count(b, sym) == (if sym == 'D' then h / 3 else 0) + (if sym == 'C' then h % 3 else 0)
      ensures Count(c, sym) == (if sym == 'Y' then e / 3 else 0) + (if sym == 'X' then e % 3 else 0)
      ensures Count(d, sym) == (if sym == 'J' then u / 3 else 0) + (if sym == 'I' then u % 3 else 0)
    {
      CountPlace(t, 'N', 'M', sym);
      CountPlace(h, 'D', 'C', sym);
      CountPlace(e, 'Y', 'X', sym);
      CountPlace(u, 'J', 'I', sym);
    }
  }

  /** Round trip: the greedy numeral of any non-negative value decodes back to it. */
  lemma EncodeDecodes(v: nat)
    ensures Tally(Encode(v)) == v
  {
    GreedyValue(v, 0);
    TallyIsValue(Encode(v));
  }

  // ---------------------------------------------------------------------
  // Uniqueness of the canonical form

  /** The runs of a numeral from rank `k` on: each symbol, in canonical order,
      repeated as often as it occurs. */
  function RunsFrom(s: string, k: nat): string
    requires k <= 8
    decreases 8 - k
  {
    if k == 8 then [] else Rep(Symbol(k), Count(s, Symbol(k))) + RunsFrom(s, k + 1)
  }

  /** The weighted sum of the counts of the symbols from rank `k` on. */
  function TallyFrom(s: string, k: nat): nat
    requires k <= 8
    decreases 8 - k
  {
    if k == 8 then 0 else Weight(k) * Count(s, Symbol(k)) + TallyFrom(s, k + 1)
  }

  lemma TallyFromAll(s: string)
    ensures TallyFrom(s, 0) == Tally(s)
  {
    assert TallyFrom(s, 6) == 3 * Count(s, 'J') + Count(s, 'I');
    assert TallyFrom(s, 4) == 30 * Count(s, 'Y') + 10 * Count(s, 'X') + TallyFrom(s, 6);
    assert TallyFrom(s, 2) == 300 * Count(s, 'D') + 100 * Count(s, 'C') + TallyFrom(s, 4);
  }

  /** Under the validator's limits, what the lower ranks add up to stays below
      the weight of each rank: the condition for the greedy encoder to take
      exactly the counts that are there. */
  lemma RemainderBound(s: string, k: nat)
    requires WithinLimits(s) && PlacePairsHold(s) && k < 8
    ensures TallyFrom(s, k + 1) < Weight(k)
  {
    TallyFromBounds(s);
  }

  lemma TallyFromBounds(s: string)
    requires WithinLimits(s) && PlacePairsHold(s)
    ensures TallyFrom(s, 8) == 0
    ensures TallyFrom(s, 7) <= 2 && TallyFrom(s, 6) <= 9 && TallyFrom(s, 5) <= 29
    ensures TallyFrom(s, 4) <= 99 && TallyFrom(s, 3) <= 299 && TallyFrom(s, 2) <= 999
    ensures TallyFrom(s, 1) <= 2999
  {
    assert TallyFrom(s, 7) == Count(s, 'I');
    assert TallyFrom(s, 6) == 3 * Count(s, 'J') + TallyFrom(s, 7);
    assert TallyFrom(s, 5) == 10 * Count(s, 'X') + TallyFrom(s, 6);
    assert TallyFrom(s, 4) == 30 * Count(s, 'Y') + TallyFrom(s, 5);
    assert TallyFrom(s, 3) == 100 * Count(s, 'C') + TallyFrom(s, 4);
    assert TallyFrom(s, 2) == 300 * Count(s, 'D') + TallyFrom(s, 3);
    assert TallyFrom(s, 1) == 1000 * Count(s, 'M') + TallyFrom(s, 2);
  }

  /** Under the validator's limits, the greedy encoder applied to a numeral's
      value reproduces the numeral's runs in canonical order. */
  lemma {:induction false} GreedyOfRuns(s: string, k: nat)
    requires WithinLimits(s) && PlacePairsHold(s) && k <= 8
    ensures Greedy(TallyFrom(s, k), k) == RunsFrom(s, k)
    decreases 8 - k
  {
    if k < 8 {
      var q, r := Count(s, Symbol(k)), TallyFrom(s, k + 1);
      RemainderBound(s, k);
      GreedyRun(q, r, k);
      GreedyOfRuns(s, k + 1);
      assert TallyFrom(s, k) == Weight(k) * q + r;
      assert RunsFrom(s, k) == Rep(Symbol(k), q) + RunsFrom(s, k + 1);
    }
  }

  lemma {:induction false} RunsFromTail(s: string, k: nat)
    requires s != [] && k <= 8 && Rank(s[0]) < k
    ensures RunsFrom(s, k) == RunsFrom(s[1..], k)
    decreases 8 - k
  {
    if k < 8 {
      RankOfSymbol(k);
      RunsFromTail(s, k + 1);
    }
  }

  lemma {:induction false} RunsFromEmpty(k: nat)
    requires k <= 8
    ensures RunsFrom([], k) == []
    decreases 8 - k
  {
    if k < 8 {
      RunsFromEmpty(k + 1);
    }
  }

  /** A string of symbols sorted by rank is determined by its counts. */
  lemma {:induction false} OrderedIsRuns(s: string, k: nat)
    requires k <= 8 && InAlphabet(s) && Ordered(s)
    requires forall i | 0 <= i < |s| :: Rank(s[i]) >= k
    ensures s == RunsFrom(s, k)
    decreases |s|, 8 - k
  {
    if s == [] {
      RunsFromEmpty(k);
    } else {
      assert IsSymbol(s[0]);
      if s[0] == Symbol(k) {
        OrderedTail(s);
        OrderedIsRuns(s[1..], k);
        RankOfSymbol(k);
        RunsFromTail(s, k + 1);
        RunsFromCons(s, k);
      } else {
        OrderedAbove(s, k);
        OrderedIsRuns(s, k + 1);
        CountAbsent(s, Symbol(k));
        RunsFromSkip(s, k);
      }
    }
  }

  /** A string that opens with the symbol of rank `k` is in runs from `k` on
      when its tail is. */
  lemma RunsFromCons(s: string, k: nat)
    requires s != [] && k < 8 && s[0] == Symbol(k)
    requires RunsFrom(s[1..], k) == s[1..] && RunsFrom(s, k + 1) == RunsFrom(s[1..], k + 1)
    ensures RunsFrom(s, k) == s
  {
    var c, rest := Symbol(k), s[1..];
    var run, tail := Rep(c, Count(rest, c)), RunsFrom(rest, k + 1);
    assert Count(s, c) == Count(rest, c) + 1;
    assert RunsFrom(s, k) == [c] + (run + tail) by {
      assert Rep(c, Count(s, c)) == [c] + run;
      assert ([c] + run) + tail == [c] + (run + tail);
    }
    assert s == [c] + rest;
  }

  /** A symbol that does not occur contributes an empty run. */
  lemma RunsFromSkip(s: string, k: nat)
    requires k < 8 && Count(s, Symbol(k)) == 0
    ensures RunsFrom(s, k) == RunsFrom(s, k + 1)
  {
    assert RunsFrom(s, k) == [] + RunsFrom(s, k + 1);
  }

  lemma OrderedTail(s: string)
    requires s != [] && InAlphabet(s) && Ordered(s)
    ensures InAlphabet(s[1..]) && Ordered(s[1..])
  {
    forall i, j | 0 <= i < j < |s| - 1 ensures Rank(s[1..][i]) <= Rank(s[1..][j]) {
      assert s[1..][i] == s[i + 1] && s[1..][j] == s[j + 1];
    }
  }

  /** In a sorted string whose first symbol ranks above `k`, no symbol has rank `k` or less. */
  lemma OrderedAbove(s: string, k: nat)
    requires s != [] && k < 8 && Ordered(s) && Rank(s[0]) >= k && s[0] != Symbol(k)
    ensures forall i | 0 <= i < |s| :: Rank(s[i]) >= k + 1 && s[i] != Symbol(k)
  {
    RankOfSymbol(k);
    forall i | 0 <= i < |s| ensures Rank(s[i]) >= k + 1 {
      if i > 0 {
        assert Rank(s[0]) <= Rank(s[i]);
      }
    }
  }

  /** The canonical form is unique: a numeral the validator accepts whose
      symbols are in canonical order is exactly the greedy numeral of its value. */
  lemma CanonicalUnique(s: string)
    requires ValidElbonian(s) && Ordered(s)
    ensures Encode(Tally(s)) == s
  {
    OrderedIsRuns(s, 0);
    RunsUnique(s, Tally(s));
  }

  /** A numeral within the limits that is laid out in runs is the greedy
      numeral of its value. */
  lemma RunsUnique(s: string, n: int)
    requires WithinLimits(s) && PlacePairsHold(s) && RunsFrom(s, 0) == s && Tally(s) == n
    ensures Encode(n) == s
  {
    GreedyOfRuns(s, 0);
    TallyFromAll(s);
  }

  /** One place pair of a spelling, seen as two consecutive runs. */
  lemma PlaceRuns(s: string, k: nat, d: nat)
    requires k < 7 && Count(s, Symbol(k)) == d / 3 && Count(s, Symbol(k + 1)) == d % 3
    ensures RunsFrom(s, k) == PlaceSpelling(d, Symbol(k), Symbol(k + 1)) + RunsFrom(s, k + 2)
  {
  }

  /** The place-by-place spelling is already laid out in runs. */
  lemma DigitsSpellingRuns(t: nat, h: nat, e: nat, u: nat)
    ensures RunsFrom(DigitsSpelling(t, h, e, u), 0) == DigitsSpelling(t, h, e, u)
  {
    var s := DigitsSpelling(t, h, e, u);
    var a, b, c, d := PlaceSpelling(t, 'N', 'M'), PlaceSpelling(h, 'D', 'C'),
                      PlaceSpelling(e, 'Y', 'X'), PlaceSpelling(u, 'J', 'I');
    DigitsSpellingCounts(t, h, e, u);
    RunsFromEmpty(8);
    PlaceRuns(s, 6, u);
    PlaceRuns(s, 4, e);
    PlaceRuns(s, 2, h);
    PlaceRuns(s, 0, t);
    assert d + [] == d;
  }

  /** A decimal digit split into its place pair stays within the limits. */
  lemma PlaceDigit(d: nat)
    requires d <= 9
    ensures d / 3 <= 3 && d % 3 <= 2
    ensures d / 3 >= 3 ==> d % 3 == 0
    ensures d == 3 * (d / 3) + d % 3
  {
  }

  lemma {:induction false} RepInAlphabet(c: char, n: nat)
    requires IsSymbol(c)
    ensures InAlphabet(Rep(c, n))
  {
    if n > 0 {
      RepInAlphabet(c, n - 1);
    }
  }

  lemma DigitsSpellingInAlphabet(t: nat, h: nat, e: nat, u: nat)
    ensures InAlphabet(DigitsSpelling(t, h, e, u))
  {
    RepInAlphabet('N', t / 3);
    RepInAlphabet('M', t % 3);
    RepInAlphabet('D', h / 3);
    RepInAlphabet('C', h % 3);
    RepInAlphabet('Y', e / 3);
    RepInAlphabet('X', e % 3);
    RepInAlphabet('J', u / 3);
    RepInAlphabet('I', u % 3);
  }

  /** The place-by-place spelling of four digits decodes to the number they write. */
  lemma DigitsSpellingTally(t: nat, h: nat, e: nat, u: nat)
    requires t <= 9 && h <= 9 && e <= 9 && u <= 9
    ensures Tally(DigitsSpelling(t, h, e, u)) == 1000 * t + 100 * h + 10 * e + u
  {
    DigitsSpellingCounts(t, h, e, u);
    PlaceDigit(t);
    PlaceDigit(h);
    PlaceDigit(e);
    PlaceDigit(u);
  }

  /** The place-by-place spelling of four digits is accepted by the validator. */
  lemma DigitsSpellingValid(t: nat, h: nat, e: nat, u: nat)
    requires t <= 9 && h <= 9 && e <= 9 && u <= 9
    ensures ValidElbonian(DigitsSpelling(t, h, e, u))
  {
    DigitsSpellingCounts(t, h, e, u);
    DigitsSpellingInAlphabet(t, h, e, u);
    PlaceDigit(t);
    PlaceDigit(h);
    PlaceDigit(e);
    PlaceDigit(u);
  }

  /** The place-by-place spelling of any four digits is the greedy numeral
      of its own value. */
  lemma DigitsSpellingCanonical(t: nat, h: nat, e: nat, u: nat)
    requires t <= 9 && h <= 9 && e <= 9 && u <= 9
    ensures Encode(Tally(DigitsSpelling(t, h, e, u))) == DigitsSpelling(t, h, e, u)
  {
    var s := DigitsSpelling(t, h, e, u);
    DigitsSpellingValid(t, h, e, u);
    DigitsSpellingRuns(t, h, e, u);
    RunsUnique(s, Tally(s));
  }

  /** The greedy numeral of the number four decimal digits write is their
      place-by-place spelling. */
  lemma EncodeDigits(t: nat, h: nat, e: nat, u: nat)
    requires t <= 9 && h <= 9 && e <= 9 && u <= 9
    ensures Encode(1000 * t + 100 * h + 10 * e + u) == DigitsSpelling(t, h, e, u)
  {
    DigitsSpellingTally(t, h, e, u);
    DigitsSpellingCanonical(t, h, e, u);
  }

  /** The four decimal digits of a value below 10000, one division at a time. */
  lemma DecimalDigits(v: nat) returns (t: nat, h: nat, e: nat, u: nat)
    requires v <= 9999
    ensures t <= 9 && h <= 9 && e <= 9 && u <= 9
    ensures v == 1000 * t + 100 * h + 10 * e + u
  {
    var below1000 := v % 1000;
    t := v / 1000;
    var below100 := below1000 % 100;
    h := below1000 / 100;
    e := below100 / 10;
    u := below100 % 10;
  }

  /** For every value in 1..9999 the greedy numeral is non-empty, sorted in
      canonical order, and accepted by the validator. */
  lemma EncodeValid(v: nat)
    requires 1 <= v <= 9999
    ensures Encode(v) != []
    ensures Ordered(Encode(v))
    ensures ValidElbonian(Encode(v))
  {
    GreedyOrdered(v, 0);
    var t, h, e, u := DecimalDigits(v);
    EncodeDigits(t, h, e, u);
    DigitsSpellingValid(t, h, e, u);
    EncodeDecodes(v);
  }

  /** The order of the symbols is not part of the validator's rule: "IX"
      passes it although it is out of canonical order. */
  lemma OrderNotChecked()
    ensures ValidElbonian("IX") && !Ordered("IX")
  {
    assert Rank("IX"[0]) > Rank("IX"[1]);
  }
}
