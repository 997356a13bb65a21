/** The element type of a range conversion: an input and its Roman numeral. */
module Responses {
  import opened JavaInteger

  /**
   * A mutable record that keeps its input as decimal text (as `Integer.toString`
   * writes it) and its Roman-numeral output verbatim.
   */
  class RomanNumeralResponse {
    var input: string
    var output: string

    /** Initialises through the two setters, as the source's constructor does. */
    constructor (input: Int32, output: string)
      ensures this.input == ToString(input) && this.output == output
      ensures ParseInt(GetInput()) == Some(input)
    {
      new;
      SetInput(input);
      SetOutput(output);
    }

    function GetInput(): string
      reads this
    {
      input
    }

    function GetOutput(): string
      reads this
    {
      output
    }

    /** Stores the decimal text of `n`; the output is untouched. */
    method SetInput(n: Int32)
      modifies this`input
      ensures input == ToString(n)
      ensures ParseInt(GetInput()) == Some(n)
      ensures output == old(output)
    {
      input := ToString(n);
      ParseToStringRoundTrip(n);
    }

    /** Stores `s` as the output; the input is untouched. */
    method SetOutput(s: string)
      modifies this`output
      ensures GetOutput() == s
      ensures input == old(input)
    {
      output := s;
    }
  }
}
