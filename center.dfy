/** The `center` stream manipulator: a width and a string, written right-aligned to the
    width after padding the string on the right with half the free space. */
module Centering {
  import opened Outcomes
  import opened Text

  datatype Center = Center(width: int, str: string)

  /** The constructor from a `std::string`: the string is kept as it is. */
  function FromString(width: int, str: string): (c: Center)
    ensures c.width == width && c.str == str
  {
    Center(width, str)
  }

  /** The constructor from an arithmetic value: its `std::to_string`. */
  function FromNumber(width: int, n: int): (c: Center)
    ensures c.width == width && c.str == IntToString(n)
    ensures n >= 0 ==> IsDigits(c.str) && DecimalValue(c.str) == n
  {
    NatToStringIfNonNegative(n);
    Center(width, IntToString(n))
  }

  lemma NatToStringIfNonNegative(n: int)
    ensures n >= 0 ==> IsDigits(IntToString(n)) && DecimalValue(IntToString(n)) == n
  {
    if n >= 0 {
      NatToStringDigits(n);
    }
  }

  /** `operator<<`: `setw(width)` right alignment of `str` followed by
      (width - |str|) / 2 spaces. The subtraction is done on `size_t`, so a string
      longer than the width makes the space count wrap to about 2^63 and the
      `std::string` constructor fails with a length error. */
  function Write(c: Center): (r: Result<string>)
    ensures r.Err? <==> c.width < |c.str|
    ensures r.Err? ==> r.error == LengthError
  {
    if c.width < |c.str| then Err(LengthError)
    else Ok(PadLeft(c.str + Spaces((c.width - |c.str|) / 2), c.width))
  }

  /** Left padding: what is left of the free space after the right padding. */
  function LeftPad(c: Center): int {
    (c.width - |c.str|) - (c.width - |c.str|) / 2
  }

  /** Right padding: half the free space, rounded down. */
  function RightPad(c: Center): int {
    (c.width - |c.str|) / 2
  }

  /** When the string fits, exactly `width` characters come out: the left padding, the
      string, then the right padding, the two paddings adding up to the free space and
      the right one never the larger. */
  lemma WriteLayout(c: Center)
    requires |c.str| <= c.width
    ensures Write(c).Ok?
    ensures |Write(c).value| == c.width
    ensures Write(c).value == Spaces(LeftPad(c)) + c.str + Spaces(RightPad(c))
    ensures LeftPad(c) + RightPad(c) == c.width - |c.str| && 0 <= RightPad(c) <= LeftPad(c) <= RightPad(c) + 1
  {
    var inner := c.str + Spaces(RightPad(c));
    assert Write(c).value == Spaces(c.width - |inner|) + inner;
    assert Spaces(c.width - |inner|) + inner == Spaces(LeftPad(c)) + c.str + Spaces(RightPad(c));
  }

  /** Only spaces are added: dropping the padding on both sides gives the string back. */
  lemma WriteKeepsString(c: Center)
    requires |c.str| <= c.width
    ensures var r := Write(c).value;
      r[LeftPad(c)..LeftPad(c) + |c.str|] == c.str
      && (forall k :: 0 <= k < LeftPad(c) ==> r[k] == ' ')
      && (forall k :: LeftPad(c) + |c.str| <= k < |r| ==> r[k] == ' ')
  {
    WriteLayout(c);
    var r := Write(c).value;
    var l := Spaces(LeftPad(c));
    assert r == l + c.str + Spaces(RightPad(c));
    assert r[|l|..|l| + |c.str|] == c.str;
    forall k | LeftPad(c) + |c.str| <= k < |r| ensures r[k] == ' ' {
      assert r[k] == Spaces(RightPad(c))[k - |l| - |c.str|];
    }
  }
}
