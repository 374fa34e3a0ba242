/**
 * Text helpers shared by the modules: decimal numerals as Python and
 * JavaScript print non-negative integers, and Python's str.strip.
 */
module Text {
  import opened Wrappers

  function Digit(d: int): char
    requires 0 <= d <= 9
  {
    ('0' as int + d) as char
  }

  /** The decimal numeral of a natural number, without leading zeros. */
  function Decimal(n: nat): (s: string)
    ensures |s| >= 1
  {
    if n < 10 then [Digit(n)] else Decimal(n / 10) + [Digit(n % 10)]
  }

  /** The number a non-empty run of decimal digits stands for. */
  function DecimalValue(s: string): Option<nat> {
    if s == [] || !('0' <= s[|s| - 1] <= '9') then None
    else
      var d := s[|s| - 1] as int - '0' as int;
      if |s| == 1 then Some(d)
      else match DecimalValue(s[..|s| - 1])
        case None => None
        case Some(v) => Some(10 * v + d)
  }

  /** Printing a number and reading it back gives the number. */
  lemma {:induction false} DecimalRoundTrip(n: nat)
    ensures DecimalValue(Decimal(n)) == Some(n)
  {
    if n >= 10 {
      var s := Decimal(n);
      assert s[..|s| - 1] == Decimal(n / 10);
      DecimalRoundTrip(n / 10);
    }
  }

  /** The characters Python's str.strip removes: the Unicode whitespace characters. */
  predicate IsSpace(c: char) {
    var u := c as int;
    || (0x09 <= u <= 0x0d) || (0x1c <= u <= 0x20) || u == 0x85 || u == 0xa0 || u == 0x1680
    || (0x2000 <= u <= 0x200a) || u == 0x2028 || u == 0x2029 || u == 0x202f || u == 0x205f || u == 0x3000
  }

  /** str.strip: the string without its leading and trailing whitespace. */
  function Strip(s: string): (r: string)
    ensures |r| <= |s|
    ensures r != [] ==> !IsSpace(r[0]) && !IsSpace(r[|r| - 1])
    ensures forall k :: 0 <= k < |r| ==> r[k] in s
    decreases |s|
  {
    if s == [] then []
    else if IsSpace(s[0]) then Strip(s[1..])
    else if IsSpace(s[|s| - 1]) then Strip(s[..|s| - 1])
    else s
  }

  /** `r` is `s[i..j]`, and the characters of `s` before `i` and from `j` on are whitespace. */
  ghost predicate TrimmedTo(s: string, r: string, i: int, j: int) {
    && 0 <= i <= j <= |s| && r == s[i..j]
    && (forall k :: 0 <= k < i ==> IsSpace(s[k]))
    && (forall k :: j <= k < |s| ==> IsSpace(s[k]))
  }

  /** What strip keeps is a slice of the text, and everything it cut off on either side is whitespace. */
  lemma {:induction false} StripSlice(s: string)
    ensures exists i, j :: TrimmedTo(s, Strip(s), i, j)
    decreases |s|
  {
    if s == [] {
      assert TrimmedTo(s, Strip(s), 0, 0);
    } else if IsSpace(s[0]) {
      StripSlice(s[1..]);
      var i, j :| TrimmedTo(s[1..], Strip(s[1..]), i, j);
      TrimFront(s, Strip(s[1..]), i, j);
      assert Strip(s) == Strip(s[1..]);
      assert TrimmedTo(s, Strip(s), i + 1, j + 1);
    } else if IsSpace(s[|s| - 1]) {
      StripSlice(s[..|s| - 1]);
      var i, j :| TrimmedTo(s[..|s| - 1], Strip(s[..|s| - 1]), i, j);
      TrimBack(s, Strip(s[..|s| - 1]), i, j);
      assert TrimmedTo(s, Strip(s), i, j);
    } else {
      assert TrimmedTo(s, Strip(s), 0, |s|);
    }
  }

  lemma TrimFront(s: string, r: string, i: int, j: int)
    requires s != [] && IsSpace(s[0]) && TrimmedTo(s[1..], r, i, j)
    ensures TrimmedTo(s, r, i + 1, j + 1)
  {
    assert forall k :: 1 <= k < |s| ==> s[k] == s[1..][k - 1];
  }

  lemma TrimBack(s: string, r: string, i: int, j: int)
    requires s != [] && IsSpace(s[|s| - 1]) && TrimmedTo(s[..|s| - 1], r, i, j)
    ensures TrimmedTo(s, r, i, j)
  {
  }
}
