/**
 * Integer to Roman numeral conversion in classical subtractive notation
 * (the Roman numerals article on Wikipedia), singly or over an inclusive range.
 */
module Roman {
  import opened JavaInteger
  import opened Responses

  /** Smallest and largest integer the converter supports. */
  const MinSupported: int := 1
  const MaxSupported: int := 3999

  /** The 13 table entries, by strictly descending value; `Symbols[i]` spells `Values[i]`. */
  const Values: seq<nat> := [1000, 900, 500, 400, 100, 90, 50, 40, 10, 9, 5, 4, 1]
  const Symbols: seq<string> := ["M", "CM", "D", "CD", "C", "XC", "L", "XL", "X", "IX", "V", "IV", "I"]

  /** A position in the table. */
  type EntryIndex = i: int | 0 <= i < 13

  /** The reason a conversion is refused; the source's message text is not modelled. */
  datatype InvalidInput =
    | OutOfSupportedRange            // a single value or a range bound outside [MinSupported, MaxSupported]
    | MinAboveMax(min: int, max: int) // both bounds supported, but min > max

  datatype Outcome = Pass | Fail(error: InvalidInput)

  datatype Result<T> = Ok(value: T) | Err(error: InvalidInput)

  predicate IsSupported(n: int) {
    MinSupported <= n <= MaxSupported
  }

  /** The shared bound check. */
  function ValidateInput(n: int): (r: Outcome)
    ensures r.Pass? <==> MinSupported <= n <= MaxSupported
    ensures r.Fail? ==> r.error == OutOfSupportedRange
  {
    if n < MinSupported || n > MaxSupported then Fail(OutOfSupportedRange) else Pass
  }

  /** Checks `min`, then `max`, against the bounds, and only then that `min <= max`. */
  function ValidateRange(min: int, max: int): (r: Outcome)
    ensures r.Pass? <==> IsSupported(min) && IsSupported(max) && min <= max
    ensures r == Fail(OutOfSupportedRange) <==> !IsSupported(min) || !IsSupported(max)
    ensures r == Fail(MinAboveMax(min, max)) <==> IsSupported(min) && IsSupported(max) && min > max
  {
    if ValidateInput(min).Fail? then ValidateInput(min)
    else if ValidateInput(max).Fail? then ValidateInput(max)
    else if min > max then Fail(MinAboveMax(min, max))
    else Pass
  }

  /**
   * The table entries the greedy scan appends, starting at table position
   * `index` with `rem` still to be written: take the current entry while its
   * value fits, otherwise move on to the next entry.
   */
  ghost function Greedy(rem: nat, index: nat): seq<EntryIndex>
    requires index <= 13
    decreases 13 - index, rem
  {
    if index == 13 then []
    else if Values[index] <= rem then [index] + Greedy(rem - Values[index], index)
    else Greedy(rem, index + 1)
  }

  /** The greedy scan only moves forward through the table. */
  lemma {:induction false} GreedyInTableOrder(rem: nat, index: nat)
    requires index <= 13
    ensures InTableOrder(Greedy(rem, index))
    ensures forall k :: 0 <= k < |Greedy(rem, index)| ==> index <= Greedy(rem, index)[k]
    decreases 13 - index, rem
  {
    if index < 13 {
      if Values[index] <= rem {
        GreedyInTableOrder(rem - Values[index], index);
      } else {
        GreedyInTableOrder(rem, index + 1);
      }
    }
  }

  /** The symbols of the given entries, concatenated. */
  ghost function Spell(picks: seq<EntryIndex>): string {
    if picks == [] then "" else Symbols[picks[0]] + Spell(picks[1..])
  }

  /** The sum of the values of the given entries. */
  ghost function SumOf(picks: seq<EntryIndex>): int {
    if picks == [] then 0 else Values[picks[0]] + SumOf(picks[1..])
  }

  /** Entries in table order, i.e. by non-increasing value. */
  ghost predicate InTableOrder(picks: seq<EntryIndex>) {
    forall k :: 0 < k < |picks| ==> picks[k - 1] <= picks[k]
  }

  /** The numeral the greedy scan writes for `n`. */
  ghost function Numeral(n: nat): string {
    Spell(Greedy(n, 0))
  }

  /** The value of one Roman symbol; 0 for any other character. */
  function SymbolValue(c: char): nat {
    match c
    case 'I' => 1
    case 'V' => 5
    case 'X' => 10
    case 'L' => 50
    case 'C' => 100
    case 'D' => 500
    case 'M' => 1000
    case _ => 0
  }

  /**
   * Reading a numeral by the subtractive rule: a symbol followed by one of
   * larger value is subtracted, every other symbol is added.
   */
  ghost function Decode(s: string): int {
    if |s| == 0 then 0
    else if |s| >= 2 && SymbolValue(s[0]) < SymbolValue(s[1]) then Decode(s[1..]) - SymbolValue(s[0])
    else Decode(s[1..]) + SymbolValue(s[0])
  }

  /** Each symbol is one or two characters, and its characters read by the subtractive rule give its value. */
  lemma SymbolDecodes(i: EntryIndex)
    ensures 1 <= |Symbols[i]| <= 2
    ensures |Symbols[i]| == 1 ==> SymbolValue(Symbols[i][0]) == Values[i]
    ensures |Symbols[i]| == 2 ==>
      SymbolValue(Symbols[i][0]) < SymbolValue(Symbols[i][1]) &&
      SymbolValue(Symbols[i][1]) - SymbolValue(Symbols[i][0]) == Values[i]
    ensures 0 < SymbolValue(Symbols[i][0]) <= Values[i] <= SymbolValue(Symbols[i][|Symbols[i]| - 1])
  {
  }

  /** A later entry never starts with a symbol larger than the one an earlier entry ends with. */
  lemma SymbolsChain(i: EntryIndex, j: EntryIndex)
    requires i <= j
    ensures SymbolValue(Symbols[j][0]) <= SymbolValue(Symbols[i][|Symbols[i]| - 1])
  {
    SymbolDecodes(i);
    SymbolDecodes(j);
    assert Values[j] <= Values[i];
  }

  /** Decoding a symbol followed by text that starts with a symbol of no greater value. */
  lemma DecodeSymbolThen(i: EntryIndex, rest: string)
    requires rest != [] ==> SymbolValue(rest[0]) <= SymbolValue(Symbols[i][|Symbols[i]| - 1])
    ensures Decode(Symbols[i] + rest) == Values[i] + Decode(rest)
  {
    SymbolDecodes(i);
    var t := Symbols[i];
    if |t| == 1 {
      assert (t + rest)[1..] == rest;
    } else {
      assert (t + rest)[1..] == [t[1]] + rest;
      assert ([t[1]] + rest)[1..] == rest;
    }
  }

  lemma {:induction false} SpellStart(picks: seq<EntryIndex>)
    requires picks != []
    ensures Spell(picks) != [] && Spell(picks)[0] == Symbols[picks[0]][0]
  {
    SymbolDecodes(picks[0]);
  }

  /** Entries spelled in table order decode to the sum of their values. */
  lemma {:induction false} DecodeSpell(picks: seq<EntryIndex>)
    requires InTableOrder(picks)
    ensures Decode(Spell(picks)) == SumOf(picks)
  {
    if picks != [] {
      var tail := picks[1..];
      DecodeSpell(tail);
      if tail != [] {
        SpellStart(tail);
        SymbolsChain(picks[0], tail[0]);
      }
      DecodeSymbolThen(picks[0], Spell(tail));
    }
  }

  /**
   * The source's private converter: scan the table from the largest value down,
   * appending each symbol while its value still fits in what remains.
   */
  method IntegerToRoman(n: nat) returns (result: string)
    ensures result == Numeral(n)
    ensures Decode(result) == n
  {
    var input: nat := n;
    result := "";
    ghost var picked: seq<EntryIndex> := [];
    for index := 0 to |Values|
      invariant result == Spell(picked)
      invariant n == input + SumOf(picked)
      invariant picked + Greedy(input, index) == Greedy(n, 0)
      invariant index == 0 || input < Values[index - 1]
    {
      while Values[index] <= input
        invariant result == Spell(picked)
        invariant n == input + SumOf(picked)
        invariant picked + Greedy(input, index) == Greedy(n, 0)
        invariant index == 0 || input < Values[index - 1]
      {
        TakeEntry(n, input, index, picked);
        input := input - Values[index];
        result := result + Symbols[index];
        picked := picked + [index];
      }
    }
    // The last entry has value 1, so nothing remains once the table is scanned.
    assert |Values| == 13;
    assert input == 0;
    assert picked == Greedy(n, 0);
    GreedyInTableOrder(n, 0);
    DecodeSpell(picked);
  }

  /** One step of the inner loop keeps the scan's invariants. */
  lemma TakeEntry(n: nat, input: nat, index: EntryIndex, picked: seq<EntryIndex>)
    requires Values[index] <= input
    requires n == input + SumOf(picked)
    requires picked + Greedy(input, index) == Greedy(n, 0)
    ensures Spell(picked + [index]) == Spell(picked) + Symbols[index]
    ensures n == (input - Values[index]) + SumOf(picked + [index])
    ensures (picked + [index]) + Greedy(input - Values[index], index) == Greedy(n, 0)
  {
    SpellAppend(picked, index);
    SumAppend(picked, index);
    assert picked + Greedy(input, index) == (picked + [index]) + Greedy(input - Values[index], index);
  }

  lemma {:induction false} SpellAppend(picks: seq<EntryIndex>, i: EntryIndex)
    ensures Spell(picks + [i]) == Spell(picks) + Symbols[i]
  {
    if picks != [] {
      assert (picks + [i])[1..] == picks[1..] + [i];
      SpellAppend(picks[1..], i);
    }
  }

  lemma {:induction false} SumAppend(picks: seq<EntryIndex>, i: EntryIndex)
    ensures SumOf(picks + [i]) == SumOf(picks) + Values[i]
  {
    if picks != [] {
      assert (picks + [i])[1..] == picks[1..] + [i];
      SumAppend(picks[1..], i);
    }
  }

  /** `convert`: validate, then convert; out-of-range input is refused and nothing is computed. */
  method Convert(n: Int32) returns (r: Result<string>)
    ensures r.Err? <==> n < MinSupported || n > MaxSupported
    ensures r.Err? ==> r.error == OutOfSupportedRange
    ensures r.Ok? ==> r.value == Numeral(n) && Decode(r.value) == n
  {
    var check := ValidateInput(n);
    if check.Fail? {
      return Err(check.error);
    }
    var numeral := IntegerToRoman(n);
    return Ok(numeral);
  }

  /** Every input text parses back, and the parsed inputs strictly increase along the list. */
  ghost predicate AscendingByInput(rs: seq<RomanNumeralResponse>)
    reads rs
  {
    (forall i :: 0 <= i < |rs| ==> ParseInt(rs[i].input).Some?) &&
    (forall i, j :: 0 <= i < j < |rs| ==> ParseInt(rs[i].input).value < ParseInt(rs[j].input).value)
  }

  /** Inputs written for consecutive integers parse back in strictly ascending order. */
  lemma ConsecutiveInputsAscend(rs: seq<RomanNumeralResponse>, first: Int32)
    requires first + |rs| <= 0x8000_0000
    requires forall i :: 0 <= i < |rs| ==> rs[i].input == ToString(first + i)
    ensures AscendingByInput(rs)
  {
    forall i | 0 <= i < |rs|
      ensures ParseInt(rs[i].input) == Some(first + i)
    {
      ParseToStringRoundTrip(first + i);
    }
  }

  /** Entry `i` holds the decimal text of `first + i` and that integer's numeral. */
  ghost predicate PairsFrom(rs: seq<RomanNumeralResponse>, first: nat)
    reads rs
  {
    forall i :: 0 <= i < |rs| ==> rs[i].input == ToString(first + i) && rs[i].output == Numeral(first + i)
  }

  lemma PairsExtend(rs: seq<RomanNumeralResponse>, r: RomanNumeralResponse, first: nat)
    requires PairsFrom(rs, first)
    requires r.input == ToString(first + |rs|) && r.output == Numeral(first + |rs|)
    ensures PairsFrom(rs + [r], first)
  {
  }

  /**
   * The body of the stream pipeline, run in input order: a fresh response
   * for every integer of [first, last], which therefore needs no reordering.
   */
  method ConvertEach(first: Int32, last: Int32) returns (responses: seq<RomanNumeralResponse>)
    requires IsSupported(first) && IsSupported(last) && first <= last
    ensures |responses| == last - first + 1
    ensures forall i :: 0 <= i < |responses| ==> fresh(responses[i])
    ensures PairsFrom(responses, first)
    ensures AscendingByInput(responses)
  {
    responses := [];
    var current: int := first;
    while current <= last
      invariant first <= current <= last + 1
      invariant |responses| == current - first
      invariant forall i :: 0 <= i < |responses| ==> fresh(responses[i])
      invariant PairsFrom(responses, first)
    {
      var numeral := IntegerToRoman(current);
      var response := new RomanNumeralResponse(current, numeral);
      PairsExtend(responses, response, first);
      responses := responses + [response];
      current := current + 1;
    }
    ConsecutiveInputsAscend(responses, first);
  }

  /**
   * `rangeConvert`: validate both bounds and their order before converting
   * anything, then pair every integer of [min, max] with its numeral, in
   * ascending order of the input.
   */
  method RangeConvert(min: Int32, max: Int32) returns (r: Result<seq<RomanNumeralResponse>>)
    ensures r.Err? <==> !IsSupported(min) || !IsSupported(max) || min > max
    ensures r.Err? ==> r.error == ValidateRange(min, max).error
    ensures r.Ok? ==> |r.value| == max - min + 1
    ensures r.Ok? ==> (forall i :: 0 <= i < |r.value| ==> fresh(r.value[i])) && PairsFrom(r.value, min)
    ensures r.Ok? ==> AscendingByInput(r.value)
  {
    var check := ValidateRange(min, max);
    if check.Fail? {
      return Err(check.error);
    }
    var responses := ConvertEach(min, max);
    return Ok(responses);
  }
}
