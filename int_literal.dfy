/** Integer literals: the `int(text, 0)` the catalog handler applies to the
    `size` and `offset` attributes, restricted to decimal and `0x` hexadecimal
    (with an optional sign), and the `"0x%04x"` formatting of the sizes
    written into the software list entry. */
module IntLiterals {
  import opened Common

  predicate IsDecDigit(c: char) { '0' <= c <= '9' }

  predicate IsHexDigit(c: char) { '0' <= c <= '9' || 'a' <= c <= 'f' || 'A' <= c <= 'F' }

  function DigitValue(c: char): (v: int)
    requires IsHexDigit(c)
    ensures 0 <= v < 16
    ensures IsDecDigit(c) ==> v < 10
  {
    if '0' <= c <= '9' then c as int - '0' as int
    else if 'a' <= c <= 'f' then c as int - 'a' as int + 10
    else c as int - 'A' as int + 10
  }

  /** The value of a digit string in base `b`, most significant digit first. */
  function DigitsValue(s: string, b: int): (v: int)
    requires b == 10 || b == 16
    requires forall i :: 0 <= i < |s| ==> IsHexDigit(s[i])
    ensures v >= 0
    decreases |s|
  {
    if s == [] then 0 else DigitsValue(s[..|s| - 1], b) * b + DigitValue(s[|s| - 1])
  }

  predicate AllDec(s: string) { forall i :: 0 <= i < |s| ==> IsDecDigit(s[i]) }

  predicate AllHex(s: string) { forall i :: 0 <= i < |s| ==> IsHexDigit(s[i]) }

  predicate AllZeros(s: string) { forall i :: 0 <= i < |s| ==> s[i] == '0' }

  predicate HasHexPrefix(s: string) { |s| >= 2 && s[0] == '0' && (s[1] == 'x' || s[1] == 'X') }

  /** An unsigned literal: `0x` and hexadecimal digits, or decimal digits
      without a leading zero unless they are all zeros. */
  function ParseUnsigned(s: string): (r: Option<int>)
    ensures r.Some? ==> r.value >= 0
    ensures r.Some? <==> (HasHexPrefix(s) && |s| > 2 && AllHex(s[2..])) ||
                         (!HasHexPrefix(s) && s != [] && AllDec(s) && (s[0] != '0' || AllZeros(s)))
  {
    if HasHexPrefix(s) then
      if |s| > 2 && AllHex(s[2..]) then Some(DigitsValue(s[2..], 16)) else None
    else if s != [] && AllDec(s) && (s[0] != '0' || AllZeros(s)) then Some(DigitsValue(s, 10))
    else None
  }

  /** `int(s, 0)` on the literals modelled: an optional sign and an unsigned
      literal; anything else is the `ValueError` of an invalid literal. */
  function ParseInt(s: string): (r: Result<int>)
    ensures r.Err? ==> r.error == InvalidLiteral(s)
    ensures s != [] && s[0] == '-' ==> (r.Ok? <==> ParseUnsigned(s[1..]).Some?) && (r.Ok? ==> r.value <= 0)
    ensures s != [] && s[0] == '+' ==> (r.Ok? <==> ParseUnsigned(s[1..]).Some?) && (r.Ok? ==> r.value >= 0)
    ensures (s == [] || (s[0] != '-' && s[0] != '+')) ==> (r.Ok? <==> ParseUnsigned(s).Some?) && (r.Ok? ==> r.value >= 0)
  {
    var neg := s != [] && s[0] == '-';
    var body := if s != [] && (s[0] == '-' || s[0] == '+') then s[1..] else s;
    match ParseUnsigned(body)
    case None => Err(InvalidLiteral(s))
    case Some(v) => Ok(if neg then -v else v)
  }

  /** The lower-case hexadecimal digit of `k`. */
  function HexChar(k: int): (c: char)
    requires 0 <= k < 16
    ensures IsHexDigit(c) && DigitValue(c) == k
  {
    if k < 10 then ('0' as int + k) as char else ('a' as int + k - 10) as char
  }

  /** The shortest lower-case hexadecimal digits of `n`. */
  function HexDigits(n: nat): (s: string)
    ensures |s| >= 1 && AllHex(s)
    ensures n > 0 ==> s[0] != '0'
    ensures DigitsValue(s, 16) == n
  {
    if n < 16 then [HexChar(n)]
    else
      var s := HexDigits(n / 16) + [HexChar(n % 16)];
      assert s[..|s| - 1] == HexDigits(n / 16);
      assert (n / 16) * 16 + n % 16 == n;
      s
  }

  /** `"0x%04x" % n`: at least four lower-case hexadecimal digits. */
  function Hex4(n: nat): (s: string)
    ensures HasHexPrefix(s) && |s| >= 6
  {
    var d := HexDigits(n);
    "0x" + (if |d| < 4 then seq(4 - |d|, _ => '0') + d else d)
  }

  /** Leading zeros do not change the value of a digit string. */
  lemma {:induction false} LeadingZeros(z: string, d: string, b: int)
    requires b == 10 || b == 16
    requires AllZeros(z) && AllHex(d)
    ensures AllHex(z + d)
    ensures DigitsValue(z + d, b) == DigitsValue(d, b)
    decreases |d|
  {
    var s := z + d;
    assert AllHex(s) by {
      forall i | 0 <= i < |s| ensures IsHexDigit(s[i]) {
        if i < |z| { assert s[i] == z[i]; } else { assert s[i] == d[i - |z|]; }
      }
    }
    if d == [] {
      assert s == z;
      ZerosValue(z, b);
    } else {
      assert s[..|s| - 1] == z + d[..|d| - 1];
      LeadingZeros(z, d[..|d| - 1], b);
    }
  }

  lemma {:induction false} ZerosValue(z: string, b: int)
    requires b == 10 || b == 16
    requires AllZeros(z)
    ensures DigitsValue(z, b) == 0
    decreases |z|
  {
    if z != [] {
      ZerosValue(z[..|z| - 1], b);
    }
  }

  /** The sizes written as `"0x%04x"` read back, through `int(_, 0)`, as the
      same number. */
  lemma Hex4RoundTrip(n: nat)
    ensures ParseInt(Hex4(n)) == Ok(n)
  {
    var d := HexDigits(n);
    var s := Hex4(n);
    var body := if |d| < 4 then seq(4 - |d|, _ => '0') + d else d;
    assert s[2..] == body;
    if |d| < 4 {
      LeadingZeros(seq(4 - |d|, _ => '0'), d, 16);
    }
  }
}
