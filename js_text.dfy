/**
 * The JavaScript string built-ins the catalog relies on, restricted to what
 * the model needs: `toLowerCase` (ASCII letters), `trim`, `includes`,
 * `replace` with a string pattern, `parseInt` without a radix argument and
 * the decimal `toString` of a non-negative integer.
 */
module JsText {
  import opened Wrappers

  // ---------------------------------------------------------------------------
  // toLowerCase

  predicate IsUpper(c: char) { 'A' <= c <= 'Z' }

  /** Lower-cases one character; only the ASCII letters A-Z change. */
  function LowerChar(c: char): (r: char)
    ensures !IsUpper(r)
    ensures !IsUpper(c) ==> r == c
  {
    if IsUpper(c) then (c as int + 32) as char else c
  }

  /** `s.toLowerCase()`, restricted to ASCII case mapping. */
  function ToLowerCase(s: string): (r: string)
    ensures |r| == |s|
    ensures forall i :: 0 <= i < |s| ==> r[i] == LowerChar(s[i])
  {
    seq(|s|, i requires 0 <= i < |s| => LowerChar(s[i]))
  }

  /** Lower-casing twice is lower-casing once. */
  lemma ToLowerCaseIdempotent(s: string)
    ensures ToLowerCase(ToLowerCase(s)) == ToLowerCase(s)
  {
  }

  // ---------------------------------------------------------------------------
  // trim

  /**
   * The white-space and line-terminator characters `trim` removes: the ASCII
   * ones, no-break space, the line and paragraph separators and the byte-order mark.
   */
  predicate IsSpace(c: char)
  {
    c == ' ' || c == '\t' || c == '\n' || c == '\r' || c == '\U{B}' || c == '\U{C}'
    || c == '\U{A0}' || c == '\U{2028}' || c == '\U{2029}' || c == '\U{FEFF}'
  }

  /** Every character of `s` is white space (the empty string included). */
  predicate IsBlank(s: string)
  {
    forall i :: 0 <= i < |s| ==> IsSpace(s[i])
  }

  /** `s.trimStart()`: drops the leading white space. */
  function TrimStart(s: string): (r: string)
    ensures |r| <= |s| && r == s[|s| - |r|..]
    ensures forall i :: 0 <= i < |s| - |r| ==> IsSpace(s[i])
    ensures r != [] ==> !IsSpace(r[0])
    ensures r == [] <==> IsBlank(s)
  {
    if |s| > 0 && IsSpace(s[0]) then
      var r := TrimStart(s[1..]);
      assert forall i :: 0 < i < |s| ==> s[i] == s[1..][i - 1];
      assert IsBlank(s[1..]) ==> IsBlank(s) by {
        if IsBlank(s[1..]) {
          forall i | 0 <= i < |s| ensures IsSpace(s[i]) {
            if i > 0 { assert s[i] == s[1..][i - 1]; }
          }
        }
      }
      r
    else
      s
  }

  /** `s.trimEnd()`: drops the trailing white space. */
  function TrimEnd(s: string): (r: string)
    ensures |r| <= |s| && r == s[..|r|]
    ensures forall i :: |r| <= i < |s| ==> IsSpace(s[i])
    ensures r != [] ==> !IsSpace(r[|r| - 1])
    ensures |s| > 0 && !IsSpace(s[0]) ==> |r| > 0
  {
    if |s| > 0 && IsSpace(s[|s| - 1]) then
      var r := TrimEnd(s[..|s| - 1]);
      assert forall i :: 0 <= i < |s| - 1 ==> s[i] == s[..|s| - 1][i];
      r
    else s
  }

  /** `r` is `s` with `k` white-space characters dropped before it and only white space after it. */
  ghost predicate TrimmedAt(s: string, r: string, k: int)
  {
    && 0 <= k <= |s| - |r| && r == s[k..k + |r|]
    && (forall i :: 0 <= i < k ==> IsSpace(s[i]))
    && (forall i :: k + |r| <= i < |s| ==> IsSpace(s[i]))
  }

  /**
   * `s.trim()`: the piece of `s` left once the white space at both ends is
   * dropped; it neither starts nor ends with white space.
   */
  function Trim(s: string): (r: string)
    ensures exists k :: TrimmedAt(s, r, k)
    ensures r != [] ==> !IsSpace(r[0]) && !IsSpace(r[|r| - 1])
  {
    var t := TrimStart(s);
    var r := TrimEnd(t);
    TrimBothEnds(s, t, r);
    r
  }

  lemma TrimBothEnds(s: string, t: string, r: string)
    requires |t| <= |s| && t == s[|s| - |t|..]
    requires forall i :: 0 <= i < |s| - |t| ==> IsSpace(s[i])
    requires |r| <= |t| && r == t[..|r|]
    requires forall i :: |r| <= i < |t| ==> IsSpace(t[i])
    ensures TrimmedAt(s, r, |s| - |t|)
  {
    var k := |s| - |t|;
    forall i | k + |r| <= i < |s| ensures IsSpace(s[i]) {
      assert s[i] == t[i - k];
    }
    assert r == t[..|r|];
  }

  /** `!s.trim()` holds exactly of the blank strings. */
  lemma TrimEmptyIffBlank(s: string)
    ensures Trim(s) == "" <==> IsBlank(s)
  {
    var t := TrimStart(s);
    if t != [] {
      assert |TrimEnd(t)| > 0;
    }
  }

  // ---------------------------------------------------------------------------
  // includes, indexOf and replace

  /** `p` occurs in `s` starting at index `i`. */
  ghost predicate OccursAt(s: string, p: string, i: int)
  {
    0 <= i && i + |p| <= |s| && s[i..i + |p|] == p
  }

  /** The index of the first occurrence of `p` in `s`, as `s.indexOf(p)` finds it. */
  function IndexOf(s: string, p: string): (r: Option<nat>)
    ensures r.Some? ==> OccursAt(s, p, r.value)
    ensures r.Some? ==> forall j :: 0 <= j < r.value ==> !OccursAt(s, p, j)
    ensures r.None? ==> forall j :: !OccursAt(s, p, j)
    decreases |s|
  {
    if |p| <= |s| && s[..|p|] == p then
      Some(0)
    else if s == [] then
      None
    else
      var r := IndexOf(s[1..], p);
      OccursShift(s, p);
      if r.None? then None else Some(r.value + 1)
  }

  /** An occurrence after the first character is an occurrence in the tail. */
  lemma OccursShift(s: string, p: string)
    requires s != []
    ensures forall j :: 0 < j ==> (OccursAt(s, p, j) <==> OccursAt(s[1..], p, j - 1))
  {
    forall j | 0 < j ensures OccursAt(s, p, j) <==> OccursAt(s[1..], p, j - 1) {
      if j + |p| <= |s| {
        assert s[1..][j - 1..j - 1 + |p|] == s[j..j + |p|];
      }
    }
  }

  /** `s.includes(p)`. */
  function Includes(s: string, p: string): (r: bool)
    ensures r <==> exists i :: OccursAt(s, p, i)
  {
    IndexOf(s, p).Some?
  }

  /** `s.replace(p, rep)` with a string pattern: only the first occurrence is replaced. */
  function Replace(s: string, p: string, rep: string): (r: string)
    ensures !Includes(s, p) ==> r == s
    ensures Includes(s, p) ==> exists i ::
      && OccursAt(s, p, i) && (forall j :: 0 <= j < i ==> !OccursAt(s, p, j))
      && r == s[..i] + rep + s[i + |p|..]
  {
    match IndexOf(s, p)
    case None => s
    case Some(i) => s[..i] + rep + s[i + |p|..]
  }

  /** Removing a pattern that starts the string leaves exactly the rest of it. */
  lemma ReplaceLeadingPattern(p: string, t: string)
    ensures Replace(p + t, p, "") == t
  {
    assert (p + t)[..|p|] == p;
    assert IndexOf(p + t, p) == Some(0);
    assert (p + t)[|p|..] == t;
  }

  // ---------------------------------------------------------------------------
  // parseInt

  /** The value of a digit character in any radix up to 36. */
  function DigitValue(c: char): (r: Option<nat>)
    ensures r.Some? ==> r.value < 36
    ensures '0' <= c <= '9' ==> r == Some(c as int - '0' as int)
  {
    if '0' <= c <= '9' then Some(c as int - '0' as int)
    else if 'a' <= c <= 'z' then Some(c as int - 'a' as int + 10)
    else if 'A' <= c <= 'Z' then Some(c as int - 'A' as int + 10)
    else None
  }

  predicate IsDigitIn(c: char, radix: nat)
  {
    DigitValue(c).Some? && DigitValue(c).value < radix
  }

  /** The length of the longest prefix of `s` made of digits of the radix. */
  function DigitRun(s: string, radix: nat): (n: nat)
    ensures n <= |s|
    ensures forall i :: 0 <= i < n ==> IsDigitIn(s[i], radix)
    ensures n < |s| ==> !IsDigitIn(s[n], radix)
  {
    if |s| > 0 && IsDigitIn(s[0], radix) then
      var n := DigitRun(s[1..], radix);
      assert forall i :: 0 < i < n + 1 ==> s[i] == s[1..][i - 1];
      1 + n
    else
      0
  }

  /** The number a run of digits denotes, most significant digit first. */
  function DigitsValue(ds: string, radix: nat): int
    requires forall i :: 0 <= i < |ds| ==> IsDigitIn(ds[i], radix)
  {
    if ds == [] then 0
    else
      var k := |ds| - 1;
      assert IsDigitIn(ds[k], radix);
      var high := DigitsValue(ds[..k], radix);
      var d := DigitValue(ds[k]).value;
      high * radix + d
  }

  /** Reads the longest run of digits of the radix at the start of `body`; `None` when there is none. */
  function ParseDigits(body: string, radix: nat): (r: Option<int>)
    ensures r.None? <==> DigitRun(body, radix) == 0
  {
    var n := DigitRun(body, radix);
    if n == 0 then None else Some(DigitsValue(body[..n], radix))
  }

  /** Reads an unsigned number: radix 16 after a `0x`/`0X` prefix, radix 10 otherwise. */
  function ParseMagnitude(u: string): Option<int>
  {
    if |u| >= 2 && u[0] == '0' && (u[1] == 'x' || u[1] == 'X') then ParseDigits(u[2..], 16)
    else ParseDigits(u, 10)
  }

  function Negate(r: Option<int>): Option<int>
  {
    match r
    case None => None
    case Some(v) => Some(-v)
  }

  /**
   * `parseInt(s)`: skips leading white space, reads an optional sign, switches
   * to radix 16 after a `0x`/`0X` prefix, and reads the longest run of digits.
   * `None` stands for `NaN`, the result when no digit follows.
   */
  function ParseInt(s: string): (r: Option<int>)
    ensures IsBlank(s) ==> r == None
  {
    var t := TrimStart(s);
    if |t| > 0 && t[0] == '-' then Negate(ParseMagnitude(t[1..]))
    else if |t| > 0 && t[0] == '+' then ParseMagnitude(t[1..])
    else ParseMagnitude(t)
  }

  /**
   * `parseInt` gives `NaN` for a string whose first character after the
   * leading white space is neither a sign nor a decimal digit, and for a
   * blank string.
   */
  lemma ParseIntNaN(s: string, i: nat)
    requires i <= |s|
    requires forall j :: 0 <= j < i ==> IsSpace(s[j])
    requires i < |s| ==> !IsSpace(s[i]) && !('0' <= s[i] <= '9') && s[i] != '-' && s[i] != '+'
    ensures ParseInt(s) == None
  {
    if i < |s| {
      LeadingSpaces(s, i);
      NotDigitMagnitude(s[i..]);
    } else {
      assert IsBlank(s);
    }
  }

  /** An unsigned number must start with a decimal digit. */
  lemma NotDigitMagnitude(u: string)
    requires |u| > 0 && !('0' <= u[0] <= '9')
    ensures ParseMagnitude(u) == None
  {
    assert !IsDigitIn(u[0], 10);
  }

  /** With only white space before index `i` and none at `i`, trimming starts at `i`. */
  lemma LeadingSpaces(s: string, i: nat)
    requires i < |s| && !IsSpace(s[i])
    requires forall j :: 0 <= j < i ==> IsSpace(s[j])
    ensures TrimStart(s) == s[i..]
  {
    if i > 0 {
      LeadingSpaces(s[1..], i - 1);
      assert s[1..][i - 1..] == s[i..];
    }
  }

  // ---------------------------------------------------------------------------
  // Number.prototype.toString for non-negative integers

  /** The decimal digit character of `d`. */
  function DigitChar(d: nat): (c: char)
    requires d < 10
    ensures '0' <= c <= '9' && DigitValue(c) == Some(d)
  {
    ('0' as int + d) as char
  }

  /** `n.toString()` for a non-negative integer `n`: its decimal digits, without leading zeros. */
  function NatToString(n: nat): (r: string)
    ensures |r| > 0
    ensures forall i :: 0 <= i < |r| ==> '0' <= r[i] <= '9'
    ensures |r| > 1 ==> r[0] != '0'
  {
    if n < 10 then [DigitChar(n)] else NatToString(n / 10) + [DigitChar(n % 10)]
  }

  /** The digits `NatToString` writes denote the number they were written from. */
  lemma {:induction false} NatToStringValue(n: nat)
    ensures forall i :: 0 <= i < |NatToString(n)| ==> IsDigitIn(NatToString(n)[i], 10)
    ensures DigitsValue(NatToString(n), 10) == n
  {
    var s := NatToString(n);
    if n >= 10 {
      NatToStringValue(n / 10);
      assert s[..|s| - 1] == NatToString(n / 10);
    }
  }

  /** A string of decimal digits, read without sign or white space, is read whole in radix 10. */
  lemma ParseMagnitudeDecimal(s: string)
    requires |s| > 0
    requires forall i :: 0 <= i < |s| ==> IsDigitIn(s[i], 10)
    ensures ParseMagnitude(s) == Some(DigitsValue(s, 10))
  {
    if |s| >= 2 { assert IsDigitIn(s[1], 10); }
    assert DigitRun(s, 10) == |s|;
    assert s[..|s|] == s;
  }

  /** A string that starts with neither white space nor a sign is read as an unsigned number. */
  lemma ParseIntUnsigned(s: string)
    requires |s| > 0 && !IsSpace(s[0]) && s[0] != '-' && s[0] != '+'
    ensures ParseInt(s) == ParseMagnitude(s)
  {
    LeadingSpaces(s, 0);
  }

  /** A string of decimal digits is read whole, in radix 10. */
  lemma ParseIntDecimal(s: string)
    requires |s| > 0
    requires forall i :: 0 <= i < |s| ==> IsDigitIn(s[i], 10)
    ensures ParseInt(s) == Some(DigitsValue(s, 10))
  {
    assert IsDigitIn(s[0], 10);
    ParseIntUnsigned(s);
    ParseMagnitudeDecimal(s);
  }

  /**
   * `parseInt` reads decimal digits up to the first character that is not
   * one and ignores the rest, unless the string is a single "0" followed by
   * "x" or "X", which switches to radix 16.
   */
  lemma ParseIntIgnoresTrailing(d: string, rest: string)
    requires |d| > 0
    requires forall i :: 0 <= i < |d| ==> IsDigitIn(d[i], 10)
    requires rest != [] ==> !IsDigitIn(rest[0], 10)
    requires d == "0" && rest != [] ==> rest[0] != 'x' && rest[0] != 'X'
    ensures ParseInt(d + rest) == Some(DigitsValue(d, 10))
  {
    var t := d + rest;
    DigitsThenRest(d, rest);
    ParseIntUnsigned(t);
    DecimalMagnitudePrefix(t, |d|);
  }

  /** The facts about `d + rest` that reading it needs: its first `|d|` characters are those of `d`, and no hex prefix. */
  lemma DigitsThenRest(d: string, rest: string)
    requires |d| > 0
    requires forall i :: 0 <= i < |d| ==> IsDigitIn(d[i], 10)
    requires rest != [] ==> !IsDigitIn(rest[0], 10)
    requires d == "0" && rest != [] ==> rest[0] != 'x' && rest[0] != 'X'
    ensures var t := d + rest;
      && (d + rest)[..|d|] == d
      && (forall i :: 0 <= i < |d| ==> IsDigitIn(t[i], 10))
      && (|d| < |t| ==> !IsDigitIn(t[|d|], 10))
      && !IsSpace(t[0]) && t[0] != '-' && t[0] != '+'
      && !(|t| >= 2 && t[0] == '0' && (t[1] == 'x' || t[1] == 'X'))
  {
    var t := d + rest;
    assert t[..|d|] == d;
    assert IsDigitIn(d[0], 10);
    if |d| >= 2 {
      assert IsDigitIn(d[1], 10);
    }
  }

  /** Without a hex prefix, an unsigned number is the value of its leading run of decimal digits. */
  lemma DecimalMagnitudePrefix(u: string, n: nat)
    requires 0 < n <= |u|
    requires forall i :: 0 <= i < n ==> IsDigitIn(u[i], 10)
    requires n < |u| ==> !IsDigitIn(u[n], 10)
    requires !(|u| >= 2 && u[0] == '0' && (u[1] == 'x' || u[1] == 'X'))
    ensures ParseMagnitude(u) == Some(DigitsValue(u[..n], 10))
  {
    DigitRunPrefix(u, n);
  }

  /** A run of `n` digits that the end of the string or a non-digit ends has length `n`. */
  lemma {:induction false} DigitRunPrefix(s: string, n: nat)
    requires n <= |s|
    requires forall i :: 0 <= i < n ==> IsDigitIn(s[i], 10)
    requires n < |s| ==> !IsDigitIn(s[n], 10)
    ensures DigitRun(s, 10) == n
  {
    if n > 0 {
      assert IsDigitIn(s[0], 10);
      assert forall i :: 0 <= i < n - 1 ==> s[1..][i] == s[i + 1];
      DigitRunPrefix(s[1..], n - 1);
    }
  }

  /** `parseInt` reads back what `toString` wrote: the two are inverse on the naturals. */
  lemma ParseIntNatToString(n: nat)
    ensures ParseInt(NatToString(n)) == Some(n)
  {
    NatToStringValue(n);
    ParseIntDecimal(NatToString(n));
  }
}
