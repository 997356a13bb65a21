/** What the converter's greedy scan guarantees about the numerals it writes. */
module RomanProperties {
  import opened Roman

  /** The scan only stops when nothing remains, because the last entry is worth 1. */
  lemma {:induction false} GreedySum(rem: nat, index: nat)
    requires index < 13 || (index == 13 && rem == 0)
    ensures SumOf(Greedy(rem, index)) == rem
    decreases 13 - index, rem
  {
    if index < 13 {
      if Values[index] <= rem {
        GreedySum(rem - Values[index], index);
      } else {
        GreedySum(rem, index + 1);
      }
    }
  }

  /** Round trip: reading the numeral by the subtractive rule gives back the input. */
  lemma NumeralRoundTrip(n: nat)
    ensures Decode(Numeral(n)) == n
  {
    GreedyInTableOrder(n, 0);
    DecodeSpell(Greedy(n, 0));
    GreedySum(n, 0);
  }

  /** Different inputs get different numerals. */
  lemma NumeralInjective(a: nat, b: nat)
    requires Numeral(a) == Numeral(b)
    ensures a == b
  {
    NumeralRoundTrip(a);
    NumeralRoundTrip(b);
  }

  predicate IsRomanLetter(c: char) {
    c in "MDCLXVI"
  }

  lemma {:induction false} SpellLetters(picks: seq<EntryIndex>)
    ensures forall k :: 0 <= k < |Spell(picks)| ==> IsRomanLetter(Spell(picks)[k])
  {
    if picks != [] {
      SpellLetters(picks[1..]);
      var t := Symbols[picks[0]];
      assert forall k :: 0 <= k < |t| ==> IsRomanLetter(t[k]);
    }
  }

  /** A numeral is written with the seven letters M, D, C, L, X, V and I only. */
  lemma NumeralLetters(n: nat)
    ensures forall k :: 0 <= k < |Numeral(n)| ==> IsRomanLetter(Numeral(n)[k])
  {
    SpellLetters(Greedy(n, 0));
  }

  /** A numeral is a concatenation of table symbols by non-increasing value. */
  lemma NumeralShape(n: nat)
    ensures Numeral(n) == Spell(Greedy(n, 0))
    ensures forall k :: 0 < k < |Greedy(n, 0)| ==> Values[Greedy(n, 0)[k - 1]] >= Values[Greedy(n, 0)[k]]
  {
    var picks := Greedy(n, 0);
    GreedyInTableOrder(n, 0);
    forall k | 0 < k < |picks|
      ensures Values[picks[k - 1]] >= Values[picks[k]]
    {
      ValuesDescend(picks[k - 1], picks[k]);
    }
  }

  lemma ValuesDescend(i: EntryIndex, j: EntryIndex)
    requires i <= j
    ensures Values[j] <= Values[i]
  {
  }

  /** `k` copies of table entry `i`. */
  ghost function Copies(i: EntryIndex, k: nat): (r: seq<EntryIndex>)
    ensures |r| == k
  {
    if k == 0 then [] else [i] + Copies(i, k - 1)
  }

  /** While the current entry fits, the scan appends it again. */
  lemma {:induction false} TakeRepeatedly(i: EntryIndex, k: nat, r: nat)
    requires r < Values[i]
    ensures Greedy(r + k * Values[i], i) == Copies(i, k) + Greedy(r, i + 1)
  {
    if k > 0 {
      TakeRepeatedly(i, k - 1, r);
      assert r + k * Values[i] - Values[i] == r + (k - 1) * Values[i];
    }
  }

  /** The table positions where a decade starts: hundreds at 1 (CM), tens at 5 (XC), units at 9 (IX). */
  predicate IsDecade(b: int) {
    b == 1 || b == 5 || b == 9
  }

  /** A decade's four entries are worth 9, 5, 4 and 1 times its unit, and the entry before it ten units. */
  lemma DecadeValues(b: EntryIndex)
    requires IsDecade(b)
    ensures Values[b + 3] >= 1 && Values[b - 1] == 10 * Values[b + 3]
    ensures Values[b] == 9 * Values[b + 3] && Values[b + 1] == 5 * Values[b + 3] && Values[b + 2] == 4 * Values[b + 3]
  {
  }

  /** The entries that write one decimal digit `d` in the decade starting at `b`. */
  ghost function DigitPicks(b: EntryIndex, d: nat): seq<EntryIndex>
    requires IsDecade(b) && d < 10
  {
    if d == 9 then [b]
    else if d >= 5 then [b + 1] + Copies(b + 3, d - 5)
    else if d == 4 then [b + 2]
    else Copies(b + 3, d)
  }

  /** Below four units, the scan skips to the decade's unit entry and appends it `k` times. */
  lemma FewUnits(b: EntryIndex, k: nat, r: nat)
    requires IsDecade(b) && k <= 3 && r < Values[b + 3]
    ensures r + k * Values[b + 3] < 4 * Values[b + 3]
    ensures Greedy(r + k * Values[b + 3], b + 1) == Copies(b + 3, k) + Greedy(r, b + 4)
  {
    DecadeValues(b);
    var s := Values[b + 3];
    if k == 0 {
    } else if k == 1 {
    } else if k == 2 {
    } else {
    }
    assert r + k * s < 4 * s;
    TakeRepeatedly(b + 3, k, r);
  }

  /** In the decade starting at `b`, the scan writes digit `d` and leaves the rest below one unit. */
  lemma Decade(b: EntryIndex, d: nat, r: nat)
    requires IsDecade(b) && d < 10 && r < Values[b + 3]
    ensures Greedy(r + d * Values[b + 3], b) == DigitPicks(b, d) + Greedy(r, b + 4)
  {
    if d == 9 {
      DecadeNine(b, r);
    } else if d >= 5 {
      DecadeFiveToEight(b, d - 5, r);
    } else if d == 4 {
      DecadeFour(b, r);
    } else {
      DecadeValues(b);
      FewUnits(b, d, r);
    }
  }

  lemma DecadeNine(b: EntryIndex, r: nat)
    requires IsDecade(b) && r < Values[b + 3]
    ensures Greedy(r + 9 * Values[b + 3], b) == [b] + Greedy(r, b + 4)
  {
    DecadeValues(b);
    FewUnits(b, 0, r);
    assert Greedy(r + 9 * Values[b + 3], b) == [b] + Greedy(r, b);
  }

  lemma DecadeFiveToEight(b: EntryIndex, k: nat, r: nat)
    requires IsDecade(b) && k <= 3 && r < Values[b + 3]
    ensures Greedy(r + (k + 5) * Values[b + 3], b) == [b + 1] + Copies(b + 3, k) + Greedy(r, b + 4)
  {
    DecadeValues(b);
    var s := Values[b + 3];
    FewUnits(b, k, r);
    var rem := r + k * s + 5 * s;
    assert r + (k + 5) * s == rem;
    assert Greedy(rem, b) == Greedy(rem, b + 1);
    assert Greedy(rem, b + 1) == [b + 1] + Greedy(r + k * s, b + 1);
  }

  lemma DecadeFour(b: EntryIndex, r: nat)
    requires IsDecade(b) && r < Values[b + 3]
    ensures Greedy(r + 4 * Values[b + 3], b) == [b + 2] + Greedy(r, b + 4)
  {
    DecadeValues(b);
    var rem := r + 4 * Values[b + 3];
    assert Greedy(rem, b) == Greedy(rem, b + 1) == Greedy(rem, b + 2);
    assert Greedy(rem, b + 2) == [b + 2] + Greedy(r, b + 2);
    assert Greedy(r, b + 2) == Greedy(r, b + 3) == Greedy(r, b + 4);
  }

  /** The scan first appends M once per full thousand. */
  lemma ThousandsFirst(n: nat)
    ensures Greedy(n, 0) == Copies(0, n / 1000) + Greedy(n % 1000, 1)
  {
    var q, r := n / 1000, n % 1000;
    assert Values[0] == 1000;
    TakeRepeatedly(0, q, r);
    assert r + q * Values[0] == n;
  }

  /** Below ten units, the decade starting at `b` writes the digit that counts the units. */
  lemma DigitOf(b: EntryIndex, rem: nat)
    requires IsDecade(b) && rem < 10 * Values[b + 3]
    ensures Greedy(rem, b) == DigitPicks(b, rem / Values[b + 3]) + Greedy(rem % Values[b + 3], b + 4)
  {
    var s := Values[b + 3];
    DecadeValues(b);
    Decade(b, rem / s, rem % s);
    assert rem % s + rem / s * s == rem;
  }

  /** The last decade writes the units digit and leaves nothing. */
  lemma UnitsDigit(u: nat)
    requires u < 10
    ensures Greedy(u, 9) == DigitPicks(9, u)
  {
    assert Values[12] == 1;
    Decade(9, u, 0);
    assert 0 + u * Values[12] == u;
    assert Greedy(0, 13) == [];
  }

  lemma BelowHundredPicks(r: nat)
    requires r < 100
    ensures Greedy(r, 5) == DigitPicks(5, r / 10) + DigitPicks(9, r % 10)
  {
    assert Values[8] == 10;
    DigitOf(5, r);
    UnitsDigit(r % 10);
  }

  lemma BelowThousandPicks(r: nat)
    requires r < 1000
    ensures Greedy(r, 1) == DigitPicks(1, r / 100) + DigitPicks(5, r % 100 / 10) + DigitPicks(9, r % 100 % 10)
  {
    assert Values[4] == 100;
    DigitOf(1, r);
    BelowHundredPicks(r % 100);
  }

  /**
   * The scan writes the thousands as repeated M, then one group of entries for
   * each of the hundreds, tens and units digits.
   */
  lemma NumeralByDigits(n: nat)
    ensures Greedy(n, 0) ==
      Copies(0, n / 1000) + DigitPicks(1, n % 1000 / 100) + DigitPicks(5, n % 1000 % 100 / 10) + DigitPicks(9, n % 1000 % 100 % 10)
  {
    ThousandsFirst(n);
    BelowThousandPicks(n % 1000);
  }

  /*
   * Classical notation written digit by digit, as a reference: the thousands as
   * repeated M, then each decimal digit from a fixed table per decade.
   */
  function Hundreds(d: nat): string
    requires d < 10
  {
    match d
    case 0 => ""
    case 1 => "C"
    case 2 => "CC"
    case 3 => "CCC"
    case 4 => "CD"
    case 5 => "D"
    case 6 => "DC"
    case 7 => "DCC"
    case 8 => "DCCC"
    case _ => "CM"
  }

  function Tens(d: nat): string
    requires d < 10
  {
    match d
    case 0 => ""
    case 1 => "X"
    case 2 => "XX"
    case 3 => "XXX"
    case 4 => "XL"
    case 5 => "L"
    case 6 => "LX"
    case 7 => "LXX"
    case 8 => "LXXX"
    case _ => "XC"
  }

  function Units(d: nat): string
    requires d < 10
  {
    match d
    case 0 => ""
    case 1 => "I"
    case 2 => "II"
    case 3 => "III"
    case 4 => "IV"
    case 5 => "V"
    case 6 => "VI"
    case 7 => "VII"
    case 8 => "VIII"
    case _ => "IX"
  }


  function Thousands(k: nat): string {
    if k == 0 then "" else "M" + Thousands(k - 1)
  }

  function Classical(n: nat): string {
    Thousands(n / 1000) + BelowThousand(n % 1000)
  }

  function BelowThousand(r: nat): string
    requires r < 1000
  {
    Hundreds(r / 100) + BelowHundred(r % 100)
  }

  function BelowHundred(r: nat): string
    requires r < 100
  {
    Tens(r / 10) + Units(r % 10)
  }

  lemma {:induction false} SpellConcat(p: seq<EntryIndex>, q: seq<EntryIndex>)
    ensures Spell(p + q) == Spell(p) + Spell(q)
  {
    if p == [] {
      assert p + q == q;
    } else {
      assert (p + q)[1..] == p[1..] + q;
      SpellConcat(p[1..], q);
    }
  }

  lemma {:induction false} SpellThousands(k: nat)
    ensures Spell(Copies(0, k)) == Thousands(k)
  {
    if k > 0 {
      SpellThousands(k - 1);
      assert Copies(0, k)[1..] == Copies(0, k - 1);
    }
  }

  /** The entries of a hundreds digit spell that digit's entry in `Hundreds`. */
  lemma SpellHundreds(d: nat)
    requires d < 10
    ensures Spell(DigitPicks(1, d)) == Hundreds(d)
  {
    if d == 0 {
      assert Spell(DigitPicks(1, 0)) == "";
    } else if d == 1 {
      assert Spell(DigitPicks(1, 1)) == "C";
    } else if d == 2 {
      assert Spell(DigitPicks(1, 2)) == "CC";
    } else if d == 3 {
      assert Spell(DigitPicks(1, 3)) == "CCC";
    } else if d == 4 {
      assert Spell(DigitPicks(1, 4)) == "CD";
    } else if d == 5 {
      assert Spell(DigitPicks(1, 5)) == "D";
    } else if d == 6 {
      assert Spell(DigitPicks(1, 6)) == "DC";
    } else if d == 7 {
      assert Spell(DigitPicks(1, 7)) == "DCC";
    } else if d == 8 {
      assert Spell(DigitPicks(1, 8)) == "DCCC";
    } else {
      assert Spell(DigitPicks(1, 9)) == "CM";
    }
  }

  /** The entries of a tens digit spell that digit's entry in `Tens`. */
  lemma SpellTens(d: nat)
    requires d < 10
    ensures Spell(DigitPicks(5, d)) == Tens(d)
  {
    if d == 0 {
      assert Spell(DigitPicks(5, 0)) == "";
    } else if d == 1 {
      assert Spell(DigitPicks(5, 1)) == "X";
    } else if d == 2 {
      assert Spell(DigitPicks(5, 2)) == "XX";
    } else if d == 3 {
      assert Spell(DigitPicks(5, 3)) == "XXX";
    } else if d == 4 {
      assert Spell(DigitPicks(5, 4)) == "XL";
    } else if d == 5 {
      assert Spell(DigitPicks(5, 5)) == "L";
    } else if d == 6 {
      assert Spell(DigitPicks(5, 6)) == "LX";
    } else if d == 7 {
      assert Spell(DigitPicks(5, 7)) == "LXX";
    } else if d == 8 {
      assert Spell(DigitPicks(5, 8)) == "LXXX";
    } else {
      assert Spell(DigitPicks(5, 9)) == "XC";
    }
  }

  /** The entries of a units digit spell that digit's entry in `Units`. */
  lemma SpellUnits(d: nat)
    requires d < 10
    ensures Spell(DigitPicks(9, d)) == Units(d)
  {
    if d == 0 {
      assert Spell(DigitPicks(9, 0)) == "";
    } else if d == 1 {
      assert Spell(DigitPicks(9, 1)) == "I";
    } else if d == 2 {
      assert Spell(DigitPicks(9, 2)) == "II";
    } else if d == 3 {
      assert Spell(DigitPicks(9, 3)) == "III";
    } else if d == 4 {
      assert Spell(DigitPicks(9, 4)) == "IV";
    } else if d == 5 {
      assert Spell(DigitPicks(9, 5)) == "V";
    } else if d == 6 {
      assert Spell(DigitPicks(9, 6)) == "VI";
    } else if d == 7 {
      assert Spell(DigitPicks(9, 7)) == "VII";
    } else if d == 8 {
      assert Spell(DigitPicks(9, 8)) == "VIII";
    } else {
      assert Spell(DigitPicks(9, 9)) == "IX";
    }
  }

  lemma SpellBelowHundred(r: nat)
    requires r < 100
    ensures Spell(Greedy(r, 5)) == BelowHundred(r)
  {
    BelowHundredPicks(r);
    SpellConcat(DigitPicks(5, r / 10), DigitPicks(9, r % 10));
    SpellTens(r / 10);
    SpellUnits(r % 10);
  }

  lemma SpellBelowThousand(r: nat)
    requires r < 1000
    ensures Spell(Greedy(r, 1)) == BelowThousand(r)
  {
    assert Values[4] == 100;
    DigitOf(1, r);
    SpellConcat(DigitPicks(1, r / 100), Greedy(r % 100, 5));
    SpellHundreds(r / 100);
    SpellBelowHundred(r % 100);
  }

  /** The greedy numeral is the classical digit-by-digit notation. */
  lemma NumeralIsClassical(n: nat)
    ensures Numeral(n) == Classical(n)
  {
    ThousandsFirst(n);
    SpellConcat(Copies(0, n / 1000), Greedy(n % 1000, 1));
    SpellThousands(n / 1000);
    SpellBelowThousand(n % 1000);
  }

  /** How many times entry `j` occurs among the appended entries. */
  ghost function Repeats(picks: seq<EntryIndex>, j: EntryIndex): nat {
    if picks == [] then 0 else (if picks[0] == j then 1 else 0) + Repeats(picks[1..], j)
  }

  lemma {:induction false} CopiesRepeats(i: EntryIndex, k: nat, j: EntryIndex)
    ensures Repeats(Copies(i, k), j) == if j == i then k else 0
  {
    if k > 0 {
      assert Copies(i, k)[1..] == Copies(i, k - 1);
      CopiesRepeats(i, k - 1, j);
    }
  }

  /** The most times one decimal digit in the decade starting at `b` appends entry `j`. */
  function DigitRepeatBound(b: EntryIndex, j: EntryIndex): nat {
    if j == b + 3 then 3 else if b <= j < b + 3 then 1 else 0
  }

  /** One digit appends its decade's unit at most three times and each other entry of the decade at most once. */
  lemma DigitRepeats(b: EntryIndex, d: nat, j: EntryIndex)
    requires IsDecade(b) && d < 10
    ensures Repeats(DigitPicks(b, d), j) <= DigitRepeatBound(b, j)
  {
    if d == 9 {
      SingleRepeats(b, j);
    } else if d >= 5 {
      RepeatsConcat([b + 1], Copies(b + 3, d - 5), j);
      SingleRepeats(b + 1, j);
      CopiesRepeats(b + 3, d - 5, j);
    } else if d == 4 {
      SingleRepeats(b + 2, j);
    } else {
      CopiesRepeats(b + 3, d, j);
    }
  }

  lemma SingleRepeats(i: EntryIndex, j: EntryIndex)
    ensures Repeats([i], j) == if j == i then 1 else 0
  {
  }

  /** The most times each entry can be appended for an input within the supported range. */
  const MaxRepeats: seq<nat> := [3, 1, 1, 1, 3, 1, 1, 1, 3, 1, 1, 1, 3]

  /** Each entry belongs to the thousands or to exactly one decade, whose bound is the entry's. */
  lemma MaxRepeatsByDecade(j: EntryIndex)
    ensures MaxRepeats[j] == (if j == 0 then 3 else 0) + DigitRepeatBound(1, j) + DigitRepeatBound(5, j) + DigitRepeatBound(9, j)
  {
  }

  /** The multiplicities of a concatenation add up. */
  lemma {:induction false} RepeatsConcat(p: seq<EntryIndex>, q: seq<EntryIndex>, j: EntryIndex)
    ensures Repeats(p + q, j) == Repeats(p, j) + Repeats(q, j)
  {
    if p == [] {
      assert p + q == q;
    } else {
      assert (p + q)[1..] == p[1..] + q;
      RepeatsConcat(p[1..], q, j);
    }
  }

  /**
   * Within the supported range, M, C, X and I are appended at most three times,
   * and D, L, V and every two-letter entry at most once.
   */
  lemma EntryRepeatBounds(n: nat, j: EntryIndex)
    requires n <= MaxSupported
    ensures Repeats(Greedy(n, 0), j) <= MaxRepeats[j]
  {
    var q, h, t, u := n / 1000, n % 1000 / 100, n % 1000 % 100 / 10, n % 1000 % 100 % 10;
    var thousands, hundreds, tens, units := Copies(0, q), DigitPicks(1, h), DigitPicks(5, t), DigitPicks(9, u);
    NumeralByDigits(n);
    assert Greedy(n, 0) == thousands + hundreds + tens + units;
    RepeatsConcat(thousands + hundreds + tens, units, j);
    RepeatsConcat(thousands + hundreds, tens, j);
    RepeatsConcat(thousands, hundreds, j);
    assert q <= 3;
    CopiesRepeats(0, q, j);
    DigitRepeats(1, h, j);
    DigitRepeats(5, t, j);
    DigitRepeats(9, u, j);
    MaxRepeatsByDecade(j);
  }

  /*
   * Each expected numeral is checked in a lemma of its own: evaluating several
   * literal numerals in one proof makes the solver compare all of them.
   */
  lemma Example8()
    ensures Numeral(8) == "VIII"
  {
    NumeralIsClassical(8);
    assert Classical(8) == "VIII";
  }

  lemma Example39()
    ensures Numeral(39) == "XXXIX"
  {
    NumeralIsClassical(39);
    assert Classical(39) == "XXXIX";
  }

  lemma Example789()
    ensures Numeral(789) == "DCCLXXXIX"
  {
    NumeralIsClassical(789);
    assert Classical(789) == "DCCLXXXIX";
  }

  lemma Example1009()
    ensures Numeral(1009) == "MIX"
  {
    NumeralIsClassical(1009);
    assert Classical(1009) == "MIX";
  }

  lemma Example2024()
    ensures Numeral(2024) == "MMXXIV"
  {
    NumeralIsClassical(2024);
    assert Classical(2024) == "MMXXIV";
  }

  lemma Example3999()
    ensures Numeral(3999) == "MMMCMXCIX"
  {
    NumeralIsClassical(3999);
    assert Classical(3999) == "MMMCMXCIX";
  }

  /** The single conversions the source's tests expect. */
  lemma ConvertExamples()
    ensures Numeral(8) == "VIII"
    ensures Numeral(39) == "XXXIX"
    ensures Numeral(789) == "DCCLXXXIX"
    ensures Numeral(1009) == "MIX"
    ensures Numeral(2024) == "MMXXIV"
  {
    Example8();
    Example39();
    Example789();
    Example1009();
    Example2024();
  }

  /** The numerals the source's tests expect at both ends of the supported range. */
  lemma ConvertBoundaryExamples()
    ensures Numeral(MinSupported) == "I"
    ensures Numeral(MaxSupported) == "MMMCMXCIX"
  {
    SmallNumeral(1);
    Example3999();
  }

  /** Below ten, the numeral is the units digit's entry. */
  lemma SmallNumeral(u: nat)
    requires u < 10
    ensures Numeral(u) == Units(u)
  {
    NumeralIsClassical(u);
    assert Classical(u) == "" + ("" + ("" + Units(u)));
  }

  /** The numerals of `rangeConvert(1, 10)` that the source's tests expect, in order. */
  lemma RangeOneToTenExample()
    ensures Numeral(1) == "I"
    ensures Numeral(2) == "II"
    ensures Numeral(3) == "III"
    ensures Numeral(4) == "IV"
    ensures Numeral(5) == "V"
    ensures Numeral(6) == "VI"
    ensures Numeral(7) == "VII"
    ensures Numeral(8) == "VIII"
    ensures Numeral(9) == "IX"
    ensures Numeral(10) == "X"
  {
    SmallNumeral(1);
    SmallNumeral(2);
    SmallNumeral(3);
    SmallNumeral(4);
    SmallNumeral(5);
    SmallNumeral(6);
    SmallNumeral(7);
    SmallNumeral(8);
    SmallNumeral(9);
    NumeralIsClassical(10);
    assert Classical(10) == "X";
  }

  /** The ranges the source's tests expect to be refused. */
  lemma RangeRefusalExamples()
    ensures ValidateRange(-1, 10) == Fail(OutOfSupportedRange)
    ensures ValidateRange(1, 10000) == Fail(OutOfSupportedRange)
    ensures ValidateRange(20, 10) == Fail(MinAboveMax(20, 10))
    ensures ValidateInput(MinSupported - 1).Fail? && ValidateInput(MaxSupported + 1).Fail?
  {
  }
}
