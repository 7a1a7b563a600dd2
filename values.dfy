/** Python scalar values as a spreadsheet row, a CSV row or a JSON request body carries
    them, and the parts of Python's `str` the reconciliation code relies on: `str(v)`,
    truthiness, `strip()`, `lower()` and `startswith("_")`. */
module Values {

  datatype Option<+T> = None | Some(value: T)

  /** A value, or the message of the error the handler raises instead. */
  datatype Result<+T> = Ok(value: T) | Failure(message: string)

  /** A cell value: Python's None, str, int or bool. */
  datatype Cell = Null | Str(s: string) | Int(i: int) | Bool(b: bool)

  function DigitChar(d: nat): (c: char)
    requires d < 10
    ensures '0' <= c <= '9'
  {
    (48 + d) as char
  }

  /** The decimal digits of `n`, most significant first. */
  function Digits(n: nat): (r: string)
    ensures 1 <= |r|
    ensures forall k :: 0 <= k < |r| ==> '0' <= r[k] <= '9'
    decreases n
  {
    if n < 10 then [DigitChar(n)] else Digits(n / 10) + [DigitChar(n % 10)]
  }

  /** Python's `str(i)` for an int. */
  function IntToString(i: int): (r: string)
    ensures 1 <= |r|
    ensures (r[0] == '-') <==> i < 0
  {
    if i < 0 then "-" + Digits(-i) else Digits(i)
  }

  /** Python's `str(v)`. */
  function Show(v: Cell): string
  {
    match v
    case Null => "None"
    case Str(s) => s
    case Int(i) => IntToString(i)
    case Bool(b) => if b then "True" else "False"
  }

  /** Python truthiness: None, "", 0 and False are falsy. */
  predicate Truthy(v: Cell)
  {
    match v
    case Null => false
    case Str(s) => s != ""
    case Int(i) => i != 0
    case Bool(b) => b
  }

  lemma {:induction false} DigitsInjective(a: nat, b: nat)
    requires Digits(a) == Digits(b)
    ensures a == b
    decreases a
  {
    if a >= 10 && b >= 10 {
      var da, db := Digits(a), Digits(b);
      assert Digits(a / 10) == da[..|da| - 1];
      assert Digits(b / 10) == db[..|db| - 1];
      DigitsInjective(a / 10, b / 10);
      assert DigitChar(a % 10) == da[|da| - 1] == DigitChar(b % 10);
    }
  }

  /** `str` is one-to-one on ints: two ints print alike only if they are equal. */
  lemma IntToStringInjective(a: int, b: int)
    requires IntToString(a) == IntToString(b)
    ensures a == b
  {
    if a < 0 && b < 0 {
      assert Digits(-a) == IntToString(a)[1..];
      assert Digits(-b) == IntToString(b)[1..];
      DigitsInjective(-a, -b);
    } else if a >= 0 && b >= 0 {
      DigitsInjective(a, b);
    }
  }

  /** Characters Python's `str.isspace` accepts. */
  predicate IsSpace(c: char)
  {
    || c == ' ' || ('\t' <= c <= '\r') || ('\U{1c}' <= c <= '\U{1f}')
    || c == '\U{85}' || c == '\U{a0}' || c == '\U{1680}' || ('\U{2000}' <= c <= '\U{200a}')
    || c == '\U{2028}' || c == '\U{2029}' || c == '\U{202f}' || c == '\U{205f}' || c == '\U{3000}'
  }

  function TrimStart(s: string): (r: string)
    ensures |r| <= |s| && r == s[|s| - |r|..]
    ensures forall k :: 0 <= k < |s| - |r| ==> IsSpace(s[k])
    ensures r == [] || !IsSpace(r[0])
  {
    if s != [] && IsSpace(s[0]) then TrimStart(s[1..]) else s
  }

  function TrimEnd(s: string): (r: string)
    ensures |r| <= |s| && r == s[..|r|]
    ensures forall k :: |r| <= k < |s| ==> IsSpace(s[k])
    ensures r == [] || !IsSpace(r[|r| - 1])
  {
    if s != [] && IsSpace(s[|s| - 1]) then TrimEnd(s[..|s| - 1]) else s
  }

  /** All characters of `s` are whitespace (true of the empty string). */
  predicate Blank(s: string)
  {
    forall k :: 0 <= k < |s| ==> IsSpace(s[k])
  }

  /** `r` stands at position `i` of `s`, with only whitespace before and after it. */
  predicate Framed(s: string, r: string, i: int)
  {
    && 0 <= i <= |s| - |r| && r == s[i..i + |r|]
    && (forall k :: 0 <= k < i ==> IsSpace(s[k]))
    && (forall k :: i + |r| <= k < |s| ==> IsSpace(s[k]))
  }

  /** Python's `s.strip()`: the text between the leading and the trailing whitespace. */
  function Strip(s: string): (r: string)
    ensures |r| <= |s|
    ensures exists i :: Framed(s, r, i)
    ensures r == [] <==> Blank(s)
    ensures r != [] ==> !IsSpace(r[0]) && !IsSpace(r[|r| - 1])
  {
    var t := TrimStart(s);
    var r := TrimEnd(t);
    TrimFramed(s);
    assert r == [] || (!IsSpace(r[0]) && !IsSpace(r[|r| - 1])) by {
      if r != [] { assert r[0] == t[0]; }
    }
    r
  }

  lemma TrimFramed(s: string)
    ensures Framed(s, TrimEnd(TrimStart(s)), |s| - |TrimStart(s)|)
  {
    var t := TrimStart(s);
    FramedOfSuffix(s, t, TrimEnd(t), |s| - |t|);
  }

  /** Whitespace before a suffix `t` of `s`, and after a prefix `r` of `t`, frames `r` in `s`. */
  lemma FramedOfSuffix(s: string, t: string, r: string, i: int)
    requires 0 <= i <= |s| && t == s[i..] && |r| <= |t| && r == t[..|r|]
    requires forall k :: 0 <= k < i ==> IsSpace(s[k])
    requires forall k :: |r| <= k < |t| ==> IsSpace(t[k])
    ensures Framed(s, r, i)
  {
    assert r == s[i..i + |r|];
    forall k | i + |r| <= k < |s|
      ensures IsSpace(s[k])
    {
      assert s[k] == t[k - i];
    }
  }

  /** ASCII part of Python's `str.lower()`. */
  function LowerChar(c: char): (r: char)
    ensures !('A' <= r <= 'Z')
    ensures !('A' <= c <= 'Z') ==> r == c
    ensures 'A' <= c <= 'Z' ==> 'a' <= r <= 'z' && r as int - c as int == 'a' as int - 'A' as int
  {
    if 'A' <= c <= 'Z' then (c as int + 32) as char else c
  }

  function Lower(s: string): (r: string)
    ensures |r| == |s|
    ensures forall k :: 0 <= k < |r| ==> !('A' <= r[k] <= 'Z')
    ensures forall k :: 0 <= k < |s| && !('A' <= s[k] <= 'Z') ==> r[k] == s[k]
    ensures forall k :: 0 <= k < |s| && 'A' <= s[k] <= 'Z' ==>
      'a' <= r[k] <= 'z' && r[k] as int - s[k] as int == 'a' as int - 'A' as int
  {
    seq(|s|, k requires 0 <= k < |s| => LowerChar(s[k]))
  }

  // ---------------------------------------------------------------------------------------
  // Python's `float(s)` on a string: the text, stripped of whitespace, must be a decimal
  // literal (underscores allowed between digits) or inf, infinity or nan in any case, with
  // an optional sign. Anything else raises ValueError.

  predicate IsDigit(c: char)
  {
    '0' <= c <= '9'
  }

  /** Digits, with single underscores allowed between two digits. */
  predicate DigitPart(s: string)
  {
    && |s| > 0 && IsDigit(s[0]) && IsDigit(s[|s| - 1])
    && forall k :: 0 <= k < |s| ==>
         IsDigit(s[k]) || (s[k] == '_' && 0 < k < |s| - 1 && IsDigit(s[k - 1]) && IsDigit(s[k + 1]))
  }

  /** `s` splits at its point `i` into `digits "." [digits]` or `"." digits`. */
  predicate PointSplit(s: string, i: int)
    requires 0 <= i < |s|
  {
    || (DigitPart(s[..i]) && (i + 1 == |s| || DigitPart(s[i + 1..])))
    || (i == 0 && DigitPart(s[1..]))
  }

  predicate Mantissa(s: string)
  {
    || DigitPart(s)
    || exists i :: 0 <= i < |s| && s[i] == '.' && PointSplit(s, i)
  }

  /** `("e" | "E") [sign] digits`. */
  predicate Exponent(s: string)
  {
    && |s| >= 2 && (s[0] == 'e' || s[0] == 'E')
    && (DigitPart(s[1..]) || ((s[1] == '+' || s[1] == '-') && DigitPart(s[2..])))
  }

  predicate DecimalText(s: string)
  {
    || Mantissa(s)
    || exists e :: 0 < e < |s| && (s[e] == 'e' || s[e] == 'E') && Mantissa(s[..e]) && Exponent(s[e..])
  }

  predicate UnsignedFloat(s: string)
  {
    Lower(s) in {"inf", "infinity", "nan"} || DecimalText(s)
  }

  /** `float(s)` returns instead of raising ValueError. */
  predicate FloatText(s: string)
  {
    var t := Strip(s);
    UnsignedFloat(t) || (|t| > 0 && (t[0] == '+' || t[0] == '-') && UnsignedFloat(t[1..]))
  }

  /** 2^1024 - 2^970: halfway between the largest double and 2^1024. Python's `float(i)`
      rounds an int to nearest, ties to even, so from this magnitude on it rounds past the
      largest double. */
  const FloatOverflow: int :=
    0xFFFFFFFFFFFFFC00_0000000000000000_0000000000000000_0000000000000000_0000000000000000_0000000000000000_0000000000000000_0000000000000000_0000000000000000_0000000000000000_0000000000000000_0000000000000000_0000000000000000_0000000000000000_0000000000000000_0000000000000000

  /** `float(i)` of an int returns instead of raising OverflowError. */
  predicate IntFitsFloat(i: int)
  {
    -FloatOverflow < i < FloatOverflow
  }

  /** Text that neither starts nor ends with whitespace is its own `strip()`. */
  lemma StripKeeps(s: string)
    requires s == [] || (!IsSpace(s[0]) && !IsSpace(s[|s| - 1]))
    ensures Strip(s) == s
  {
    assert TrimStart(s) == s;
    assert TrimEnd(s) == s;
  }

  /** Text without a point or an exponent marker is a decimal literal only as plain digits. */
  lemma NoPointNoExponent(s: string)
    requires forall k :: 0 <= k < |s| ==> s[k] != '.' && s[k] != 'e' && s[k] != 'E'
    ensures DecimalText(s) <==> DigitPart(s)
  {
  }

  /** `name.startswith("_")`: mapped-data keys written this way are internal. */
  predicate Hidden(name: string)
  {
    |name| > 0 && name[0] == '_'
  }
}
