/** The text both report writers produce: decimal strings, the `readable` digit
    grouping with `'`, space padding to a width, and the minutes / seconds /
    milliseconds / microseconds rendering of a duration. */
module Text {

  /** The decimal digit of 0 <= d < 10. */
  function Digit(d: int): (c: char)
    requires 0 <= d < 10
    ensures '0' <= c <= '9' && c as int - '0' as int == d
  {
    ('0' as int + d) as char
  }

  predicate IsDigits(s: string) {
    forall k :: 0 <= k < |s| ==> '0' <= s[k] <= '9'
  }

  /** `std::to_string` of a non-negative integer: its decimal digits, no leading zero. */
  function NatToString(n: nat): string
    decreases n
  {
    if n < 10 then [Digit(n)] else NatToString(n / 10) + [Digit(n % 10)]
  }

  /** The value of a string of decimal digits. */
  function DecimalValue(s: string): nat
    requires IsDigits(s)
    decreases |s|
  {
    if s == [] then 0 else 10 * DecimalValue(s[..|s| - 1]) + (s[|s| - 1] as int - '0' as int)
  }

  /** `std::to_string` of an integer of either sign. */
  function IntToString(n: int): (r: string)
    ensures n >= 0 ==> r == NatToString(n)
  {
    if n < 0 then "-" + NatToString(-n) else NatToString(n)
  }

  /** The decimal string of n is non-empty, all digits, starts with a non-zero digit
      unless n is 0, and reads back as n. */
  lemma {:induction false} NatToStringDigits(n: nat)
    ensures var s := NatToString(n);
      |s| >= 1 && IsDigits(s) && (n > 0 ==> s[0] != '0') && DecimalValue(s) == n
    decreases n
  {
    var s := NatToString(n);
    if n >= 10 {
      NatToStringDigits(n / 10);
      var h := NatToString(n / 10);
      assert s == h + [Digit(n % 10)];
      assert s[..|s| - 1] == h;
      assert s[0] == h[0];
    }
  }

  /** The decimal string alone, with every `'` removed. */
  function Unquote(s: string): string
    decreases |s|
  {
    if s == [] then [] else (if s[0] == '\'' then [] else [s[0]]) + Unquote(s[1..])
  }

  lemma {:induction false} UnquoteAppend(a: string, b: string)
    ensures Unquote(a + b) == Unquote(a) + Unquote(b)
    decreases |a|
  {
    if a != [] {
      assert (a + b)[1..] == a[1..] + b;
      UnquoteAppend(a[1..], b);
    } else {
      assert a + b == b;
    }
  }

  lemma {:induction false} UnquoteNoQuote(s: string)
    requires forall k :: 0 <= k < |s| ==> s[k] != '\''
    ensures Unquote(s) == s
    decreases |s|
  {
    if s != [] {
      UnquoteNoQuote(s[1..]);
      assert s == [s[0]] + s[1..];
    }
  }

  /** Digit grouping counted from the right: a `'` before every full group of three
      digits that is not at the front. */
  function Grouped(d: string): (r: string)
    ensures |d| <= |r| && (|d| <= 3 ==> r == d)
    ensures |d| > 3 ==> |d| < |r|
    decreases |d|
  {
    if |d| <= 3 then d else Grouped(d[..|d| - 3]) + "'" + d[|d| - 3..]
  }

  /** What the insertion loop of `readable` builds from cell lo of the decimal string
      `d` on: cell j is preceded by a `'` when j > 0 and |d| - j is a multiple of 3. */
  function Marked(d: string, lo: nat): string
    decreases |d| - lo
  {
    if lo >= |d| then ""
    else (if lo > 0 && (|d| - lo) % 3 == 0 then "'" else "") + [d[lo]] + Marked(d, lo + 1)
  }

  /** `readable(std::int64_t)`: walks the `std::to_string` of the number from its end to
      its front, inserting a `'` at position i whenever the count of cells passed is a
      positive multiple of three and i is not the front. The minus sign of a negative
      number is a cell like any other. */
  method Readable(number: int) returns (str: string)
    ensures str == Grouped(IntToString(number))
    ensures number >= 0 ==> str == ReadableNumber(number)
  {
    str := IntToString(number);
    ghost var d := str;
    var counter := 0;
    var i := |str|;
    while i >= 0
      invariant -1 <= i <= |d| && counter == |d| - i
      invariant i == |d| ==> str == d
      invariant i < |d| ==> str == d[..i + 1] + Marked(d, i + 1)
    {
      if counter % 3 == 0 && counter > 0 && i != 0 {
        InsertQuote(d, str, i);
        str := str[..i] + "'" + str[i..];
      } else if i < |d| {
        KeepCell(d, str, i);
      }
      i := i - 1;
      counter := counter + 1;
    }
    assert d[..0] == [];
    MarkedIsGrouped(d);
  }

  lemma InsertQuote(d: string, str: string, i: int)
    requires 0 < i < |d| && (|d| - i) % 3 == 0 && str == d[..i + 1] + Marked(d, i + 1)
    ensures str[..i] + "'" + str[i..] == d[..i] + Marked(d, i)
  {
    assert str[..i] == d[..i];
    assert str[i..] == [d[i]] + Marked(d, i + 1);
  }

  lemma KeepCell(d: string, str: string, i: int)
    requires 0 <= i < |d| && !(i > 0 && (|d| - i) % 3 == 0)
    requires i + 1 == |d| ==> str == d
    requires i + 1 < |d| ==> str == d[..i + 1] + Marked(d, i + 1)
    ensures str == d[..i] + Marked(d, i)
  {
    assert d[..i + 1] == d[..i] + [d[i]];
    if i + 1 == |d| {
      assert d == d[..i + 1];
    }
  }

  /** Without a group of four, the loop inserts nothing. */
  lemma {:induction false} MarkedShort(d: string, lo: nat)
    requires |d| <= 3 && lo <= |d|
    ensures Marked(d, lo) == d[lo..]
    decreases |d| - lo
  {
    if lo < |d| {
      MarkedShort(d, lo + 1);
      assert d[lo..] == [d[lo]] + d[lo + 1..];
    }
  }

  /** Splitting off the last three cells: the loop marks the front part on its own and
      puts one `'` before the last group. */
  lemma {:induction false} MarkedSplit(p: string, t: string, lo: nat)
    requires |t| == 3 && |p| >= 1 && lo <= |p|
    ensures Marked(p + t, lo) == Marked(p, lo) + "'" + t
    decreases |p| - lo
  {
    var d := p + t;
    if lo < |p| {
      MarkedSplit(p, t, lo + 1);
      assert (|d| - lo) % 3 == (|p| - lo) % 3;
      assert d[lo] == p[lo];
    } else {
      assert Marked(d, lo + 3) == "";
      assert Marked(d, lo + 2) == [t[2]];
      assert Marked(d, lo + 1) == [t[1], t[2]];
      assert t == [t[0], t[1], t[2]];
    }
  }

  /** The loop of `readable` computes the grouping from the right. */
  lemma {:induction false} MarkedIsGrouped(d: string)
    ensures Marked(d, 0) == Grouped(d)
    decreases |d|
  {
    if |d| <= 3 {
      MarkedShort(d, 0);
    } else {
      var p, t := d[..|d| - 3], d[|d| - 3..];
      assert d == p + t;
      MarkedSplit(p, t, 0);
      MarkedIsGrouped(p);
    }
  }

  /** Removing the `'`s from a grouped digit string gives the digits back. */
  lemma {:induction false} UnquoteGrouped(d: string)
    requires IsDigits(d)
    ensures Unquote(Grouped(d)) == d
    decreases |d|
  {
    if |d| <= 3 {
      UnquoteNoQuote(d);
    } else {
      var p, t := d[..|d| - 3], d[|d| - 3..];
      assert d == p + t;
      UnquoteGrouped(p);
      UnquoteAppend(Grouped(p) + "'", t);
      UnquoteAppend(Grouped(p), "'");
      UnquoteNoQuote(t);
    }
  }

  /** In a grouped digit string a `'` sits exactly at the positions k > 0 that are a
      multiple of four cells from the end, one before each group of three. */
  lemma {:induction false} GroupedQuotes(d: string)
    requires IsDigits(d)
    ensures var r := Grouped(d);
      forall k :: 0 <= k < |r| ==> (r[k] == '\'' <==> 0 < k && (|r| - k) % 4 == 0)
    decreases |d|
  {
    var r := Grouped(d);
    if |d| > 3 {
      var p, t := d[..|d| - 3], d[|d| - 3..];
      GroupedQuotes(p);
      var g := Grouped(p);
      assert r == g + "'" + t;
      GroupedNonEmpty(p);
      forall k | 0 <= k < |r| ensures r[k] == '\'' <==> 0 < k && (|r| - k) % 4 == 0 {
        if k < |g| {
          assert r[k] == g[k];
          assert (|r| - k) % 4 == (|g| - k) % 4;
        } else if k > |g| {
          assert r[k] == t[k - |g| - 1];
        }
      }
    }
  }

  lemma GroupedNonEmpty(d: string)
    requires |d| >= 1
    ensures |Grouped(d)| >= 1
  {}

  /** The readable form of a non-negative number: its decimal string, grouped. */
  function ReadableNumber(n: nat): string {
    Grouped(NatToString(n))
  }

  /** The decimal string is what is left when the `'`s are removed, and the `'`s never
      lead and mark every group of three from the right. */
  lemma ReadableNumberProperties(n: nat)
    ensures Unquote(ReadableNumber(n)) == NatToString(n)
    ensures var r := ReadableNumber(n);
      |r| >= 1 && r[0] != '\'' &&
      forall k :: 0 <= k < |r| ==> (r[k] == '\'' <==> 0 < k && (|r| - k) % 4 == 0)
  {
    NatToStringDigits(n);
    UnquoteGrouped(NatToString(n));
    GroupedQuotes(NatToString(n));
    GroupedNonEmpty(NatToString(n));
  }

  /** A negative number whose digit count is a multiple of three gets a `'` right after
      its minus sign. */
  lemma ReadableNegativeFixture()
    ensures Grouped(IntToString(-123456)) == "-'123'456"
  {
    DecimalFixture();
    assert IntToString(-123456) == "-123456";
    assert "-123456"[..4] == "-123" && "-123456"[4..] == "456";
    assert "-123"[..1] == "-" && "-123"[1..] == "123";
    assert Grouped("-") == "-";
    assert Grouped("-123") == "-'123";
  }

  /** The grouping of a signed number with the sign kept out of the groups: the sign,
      then the grouped digits of the magnitude. */
  function ReadableInt(n: int): (r: string)
    ensures Unquote(r) == IntToString(n)
    ensures n >= 0 ==> r == ReadableNumber(n)
    ensures n < 0 ==> |r| >= 2 && r[0] == '-' && r[1] != '\''
  {
    if n < 0 then
      ReadableNumberProperties(-n);
      UnquoteAppend("-", ReadableNumber(-n));
      assert Unquote("-") == "-";
      "-" + ReadableNumber(-n)
    else
      ReadableNumberProperties(n);
      ReadableNumber(n)
  }

  /** 999 has no separator. */
  lemma ReadableNumberShortFixture()
    ensures ReadableNumber(999) == "999"
  {
    assert NatToString(9) == "9";
    assert NatToString(99) == "99";
  }

  /** 1234567 becomes 1'234'567. */
  lemma ReadableNumberLongFixture()
    ensures ReadableNumber(1234567) == "1'234'567"
  {
    DecimalFixture();
    assert Grouped("1") == "1";
    assert "1234"[..1] == "1" && "1234"[1..] == "234";
    assert Grouped("1234") == "1'234";
    assert "1234567"[..4] == "1234" && "1234567"[4..] == "567";
  }

  lemma DecimalFixture()
    ensures NatToString(1234567) == "1234567"
  {
    assert NatToString(1) == "1";
    assert NatToString(12) == "12";
    assert NatToString(123) == "123";
    assert NatToString(1234) == "1234";
    assert NatToString(12345) == "12345";
    assert NatToString(123456) == "123456";
  }

  /** n spaces. */
  function Spaces(n: int): (r: string)
    ensures |r| == (if n < 0 then 0 else n) && forall k :: 0 <= k < |r| ==> r[k] == ' '
  {
    if n <= 0 then "" else seq(n, _ => ' ')
  }

  /** n copies of c, as `std::string(n, c)`. */
  function Repeat(n: nat, c: char): (r: string)
    ensures |r| == n && forall k :: 0 <= k < n ==> r[k] == c
  {
    seq(n, _ => c)
  }

  /** Right alignment to a width (`std::right << std::setw(w)`, or fmt's `>`): spaces in
      front up to the width, nothing cut when s is longer. */
  function PadLeft(s: string, width: int): (r: string)
    ensures |r| == (if |s| < width then width else |s|)
    ensures r == Spaces(|r| - |s|) + s
  {
    Spaces(width - |s|) + s
  }

  /** Left alignment to a width (`std::left << std::setw(w)`, or fmt's `<`). */
  function PadRight(s: string, width: int): (r: string)
    ensures |r| == (if |s| < width then width else |s|)
    ensures r == s + Spaces(|r| - |s|)
  {
    s + Spaces(width - |s|)
  }

  /** A microsecond count broken into the four fields printed by `readable(us)`. */
  datatype Duration = Duration(minutes: nat, seconds: nat, milliseconds: nat, microseconds: nat)

  const MicrosPerMinute := 60_000_000
  const MicrosPerSecond := 1_000_000
  const MicrosPerMilli := 1_000

  /** `readable(us)`'s fields: minutes `us / 1min`, seconds `(us % 1min) / 1s`,
      milliseconds `(us % 1s) / 1ms`, microseconds `us % 1ms`. */
  function Split(us: nat): Duration {
    Duration(us / MicrosPerMinute, (us % MicrosPerMinute) / MicrosPerSecond,
             (us % MicrosPerSecond) / MicrosPerMilli, us % MicrosPerMilli)
  }

  /** The microseconds a field decomposition stands for. */
  function Total(d: Duration): nat {
    d.minutes * MicrosPerMinute + d.seconds * MicrosPerSecond + d.milliseconds * MicrosPerMilli + d.microseconds
  }

  predicate InRange(d: Duration) {
    d.seconds < 60 && d.milliseconds < 1000 && d.microseconds < 1000
  }

  /** The split fields add back up to the duration and each stays below its unit. */
  lemma SplitTotal(us: nat)
    ensures Total(Split(us)) == us && InRange(Split(us))
  {
    var q, r1 := us / MicrosPerMinute, us % MicrosPerMinute;
    var s, r2 := r1 / MicrosPerSecond, r1 % MicrosPerSecond;
    var ms, u := r2 / MicrosPerMilli, r2 % MicrosPerMilli;
    assert us == q * MicrosPerMinute + r1;
    assert r1 == s * MicrosPerSecond + r2 && s < 60;
    assert r2 == ms * MicrosPerMilli + u && ms < 1000;
    ModOfSum(q * 60, s, r2, MicrosPerSecond);
    assert us == (q * 60 + s) * MicrosPerSecond + r2;
    assert us % MicrosPerSecond == r2;
    ModOfSum(q * 60000 + s * 1000, ms, u, MicrosPerMilli);
    assert us == (q * 60000 + s * 1000 + ms) * MicrosPerMilli + u;
    assert us % MicrosPerMilli == u;
  }

  /** Fields in range that add up to a duration are its split. */
  lemma SplitUnique(d: Duration)
    requires InRange(d)
    ensures Split(Total(d)) == d
  {
    var us := Total(d);
    var r := d.seconds * MicrosPerSecond + d.milliseconds * MicrosPerMilli + d.microseconds;
    assert 0 <= r < MicrosPerMinute;
    DivModUnique(us, d.minutes, r, MicrosPerMinute);
    var r2 := d.milliseconds * MicrosPerMilli + d.microseconds;
    assert 0 <= r2 < MicrosPerSecond;
    DivModUnique(r, d.seconds, r2, MicrosPerSecond);
    ModOfSum(d.minutes * 60, d.seconds, r2, MicrosPerSecond);
    assert us == (d.minutes * 60 + d.seconds) * MicrosPerSecond + r2;
    DivModUnique(r2, d.milliseconds, d.microseconds, MicrosPerMilli);
    ModOfSum(d.minutes * 60000 + d.seconds * 1000, d.milliseconds, d.microseconds, MicrosPerMilli);
    assert us == (d.minutes * 60000 + d.seconds * 1000 + d.milliseconds) * MicrosPerMilli + d.microseconds;
  }

  lemma ModOfSum(a: nat, b: nat, r: nat, m: nat)
    requires 0 <= r < m && (m == MicrosPerMinute || m == MicrosPerSecond || m == MicrosPerMilli)
    ensures ((a + b) * m + r) % m == r && ((a + b) * m + r) / m == a + b
  {
    DivModUnique((a + b) * m + r, a + b, r, m);
  }

  /** Division by one of the three units is determined by quotient and remainder. */
  lemma DivModUnique(x: int, q: int, r: int, m: int)
    requires 0 <= r < m && x == q * m + r
    requires m == MicrosPerMinute || m == MicrosPerSecond || m == MicrosPerMilli
    ensures x / m == q && x % m == r
  {
    if m == MicrosPerMinute {
      assert x == q * 60_000_000 + r;
    } else if m == MicrosPerSecond {
      assert x == q * 1_000_000 + r;
    } else {
      assert x == q * 1_000 + r;
    }
  }

  /** `readable(us)`: the four fields right-aligned in widths 3, 2, 3 and 3, each
      followed by its unit. */
  function DurationText(us: nat): (r: string)
    ensures |r| >= 20
  {
    var d := Split(us);
    PadLeft(NatToString(d.minutes), 3) + "m " + PadLeft(NatToString(d.seconds), 2) + "s "
    + PadLeft(NatToString(d.milliseconds), 3) + "ms " + PadLeft(NatToString(d.microseconds), 3) + "us"
  }
}
