/** The two JavaScript string operations the admin page relies on:
    `String.prototype.trim` (validation of the heading) and the conversion of a
    non-negative integer id to its decimal text (building a resource URL),
    together with the parse that inverts it. */
module JsStrings {
  import opened JsValues

  /** WhiteSpace and LineTerminator code points of ECMAScript, the set `trim` strips. */
  predicate IsWhiteSpace(c: char) {
    var u := c as int;
    u == 0x09 || u == 0x0A || u == 0x0B || u == 0x0C || u == 0x0D || u == 0x20
    || u == 0xA0 || u == 0x1680 || (0x2000 <= u <= 0x200A)
    || u == 0x2028 || u == 0x2029 || u == 0x202F || u == 0x205F
    || u == 0x3000 || u == 0xFEFF
  }

  /** True when every character of `s` is white space (the empty string included). */
  predicate Blank(s: string) {
    forall i :: 0 <= i < |s| ==> IsWhiteSpace(s[i])
  }

  lemma BlankFirst(s: string)
    requires s != []
    ensures Blank(s) <==> IsWhiteSpace(s[0]) && Blank(s[1..])
  {
    assert forall i :: 0 < i < |s| ==> s[i] == s[1..][i - 1];
  }

  /** `s` without its leading white space. */
  function TrimStart(s: string): (r: string)
    ensures |r| <= |s| && r == s[|s| - |r|..]
    ensures r == [] || !IsWhiteSpace(r[0])
    ensures Blank(s[..|s| - |r|])
    ensures r == [] <==> Blank(s)
  {
    if s != [] && IsWhiteSpace(s[0]) then
      var r := TrimStart(s[1..]);
      assert s[..|s| - |r|] == [s[0]] + s[1..][..|s[1..]| - |r|];
      BlankFirst(s);
      r
    else
      s
  }

  /** `s` without its trailing white space. */
  function TrimEnd(s: string): (r: string)
    ensures |r| <= |s| && r == s[..|r|]
    ensures r == [] || !IsWhiteSpace(r[|r| - 1])
    ensures Blank(s[|r|..])
    ensures r == [] <==> Blank(s)
  {
    if s != [] && IsWhiteSpace(s[|s| - 1]) then
      var r := TrimEnd(s[..|s| - 1]);
      assert s[|r|..] == s[..|s| - 1][|r|..] + [s[|s| - 1]];
      r
    else
      s
  }

  /** `s.trim()`: the longest piece of `s` that neither starts nor ends with
      white space; it is empty exactly when `s` is blank. */
  function Trim(s: string): (r: string)
    ensures r != [] ==> !IsWhiteSpace(r[0]) && !IsWhiteSpace(r[|r| - 1])
    ensures r == [] <==> Blank(s)
    // a contiguous piece of `s`, with only white space cut from either end
    ensures exists i, j :: 0 <= i <= j <= |s| && r == s[i..j] && Blank(s[..i]) && Blank(s[j..])
  {
    var u := TrimStart(s);
    // `u` is empty or starts with a character that is not white space
    assert Blank(u) <==> u == [];
    var r := TrimEnd(u);
    var i := |s| - |u|;
    assert r == s[i..i + |r|] && s[i + |r|..] == u[|r|..];
    r
  }

  predicate IsDigit(c: char) {
    '0' <= c <= '9'
  }

  predicate AllDigits(s: string) {
    forall i :: 0 <= i < |s| ==> IsDigit(s[i])
  }

  function DigitChar(d: nat): (c: char)
    requires d < 10
    ensures IsDigit(c) && c as int - '0' as int == d
  {
    (d + '0' as int) as char
  }

  /** `${n}` for a non-negative integer id: its decimal digits without
      leading zeros. This is what JavaScript writes for integers up to
      `Number.MAX_SAFE_INTEGER`; the model does not bound `n`. */
  function NumberToString(n: nat): (r: string)
    ensures r != [] && AllDigits(r)
    ensures r[0] == '0' ==> n == 0
    decreases n
  {
    if n < 10 then [DigitChar(n)] else NumberToString(n / 10) + [DigitChar(n % 10)]
  }

  /** The value of a string of decimal digits. */
  function DigitsValue(s: string): nat
    requires AllDigits(s)
  {
    if s == [] then 0 else DigitsValue(s[..|s| - 1]) * 10 + (s[|s| - 1] as int - '0' as int)
  }

  /** A path segment read as a non-negative integer; only plain digit strings are accepted. */
  function ParseNat(s: string): (r: Option<nat>)
    ensures r.Some? <==> s != [] && AllDigits(s)
  {
    if s != [] && AllDigits(s) then Some(DigitsValue(s)) else None
  }

  /** Reading back the decimal text of `n` gives `n`. */
  lemma {:induction false} ParseNumberToString(n: nat)
    ensures ParseNat(NumberToString(n)) == Some(n)
    decreases n
  {
    var s := NumberToString(n);
    if n >= 10 {
      ParseNumberToString(n / 10);
      assert s[..|s| - 1] == NumberToString(n / 10);
      assert DigitsValue(s[..|s| - 1]) == n / 10;
      assert s[|s| - 1] == DigitChar(n % 10);
    } else {
      assert s[..|s| - 1] == [];
    }
    assert DigitsValue(s) == n;
  }
}
