/**
 * C strings held in fixed char fields, and the decimal text the store writes and reads:
 * the parts of strlen, strncpy, snprintf("%lu"/"%d") and strtoul that the settings code uses.
 */
module CText {
  import opened SettingsTypes

  /** The C string a char field holds: every char before the first NUL (strlen chars). */
  function CStr(s: seq<char>): (r: seq<char>)
    ensures |r| <= |s| && r == s[..|r|]
    ensures '\0' !in r
    ensures |r| < |s| ==> s[|r|] == '\0'
  {
    if |s| == 0 || s[0] == '\0' then [] else [s[0]] + CStr(s[1..])
  }

  /** The three properties of CStr determine it. */
  lemma CStrUnique(s: seq<char>, r: seq<char>)
    requires |r| <= |s| && r == s[..|r|]
    requires '\0' !in r
    requires |r| < |s| ==> s[|r|] == '\0'
    ensures CStr(s) == r
  {
    var c := CStr(s);
    assert |c| == |r|;
  }

  lemma CStrOfNulFree(s: seq<char>)
    requires '\0' !in s
    ensures CStr(s) == s
  {
    CStrUnique(s, s);
  }

  /** The first `n` chars of `s`, or all of `s` when it is shorter. */
  function Trunc(s: seq<char>, n: nat): (r: seq<char>)
    ensures |r| == if |s| <= n then |s| else n
    ensures r == s[..|r|]
  {
    if |s| <= n then s else s[..n]
  }

  /** `n` NUL chars. */
  function Nuls(n: nat): (r: seq<char>)
    ensures |r| == n && forall i :: 0 <= i < n ==> r[i] == '\0'
  {
    if n == 0 then [] else Nuls(n - 1) + ['\0']
  }

  /** `s` followed by NULs up to `n` chars, as a zero-filled char array holds it. */
  function Pad(s: seq<char>, n: nat): (r: seq<char>)
    requires |s| <= n
    ensures |r| == n
  {
    s + Nuls(n - |s|)
  }

  lemma CStrOfPad(t: seq<char>, n: nat)
    requires '\0' !in t && |t| <= n
    ensures CStr(Pad(t, n)) == t
  {
    var p := Pad(t, n);
    assert p[..|t|] == t;
    if |t| < n {
      assert p[|t|] == '\0';
    }
    CStrUnique(p, t);
  }

  /**
   * The value field after `strncpy(field, v, MaxValueLength - 1)` and the explicit
   * terminator: the text of `v` cut to 95 chars, NUL-filled to the field's 96 chars.
   */
  function StoreText(v: seq<char>): (r: seq<char>)
    ensures |r| == MaxValueLength
    ensures CStr(r) == Trunc(CStr(v), MaxValueLength - 1)
    ensures r[MaxValueLength - 1] == '\0'
  {
    var t := Trunc(CStr(v), MaxValueLength - 1);
    assert '\0' !in t by {
      assert forall i :: 0 <= i < |t| ==> t[i] == CStr(v)[i];
    }
    CStrOfPad(t, MaxValueLength);
    Pad(t, MaxValueLength)
  }

  /** Copying a stored field again stores the same field (put_string copies twice). */
  lemma StoreTextIdempotent(v: seq<char>)
    ensures StoreText(StoreText(v)) == StoreText(v)
  {
    var t := Trunc(CStr(v), MaxValueLength - 1);
    assert Trunc(CStr(StoreText(v)), MaxValueLength - 1) == t;
  }

  /** Text of at most 95 NUL-free chars is stored without loss. */
  lemma StoreTextKeepsShortText(t: seq<char>)
    requires '\0' !in t && |t| < MaxValueLength
    ensures StoreText(t) == Pad(t, MaxValueLength)
    ensures CStr(StoreText(t)) == t
  {
    CStrOfNulFree(t);
  }

  predicate IsDigit(c: char) {
    '0' <= c <= '9'
  }

  predicate AllDigits(s: seq<char>) {
    forall i :: 0 <= i < |s| ==> IsDigit(s[i])
  }

  function DigitChar(d: nat): (c: char)
    requires d < 10
    ensures IsDigit(c) && (c as int) - ('0' as int) == d
  {
    (('0' as int) + d) as char
  }

  /** snprintf("%lu", n): the decimal digits of `n`, most significant first, no leading zero. */
  function DecimalText(n: nat): (s: seq<char>)
    ensures |s| >= 1 && AllDigits(s)
    ensures |s| > 1 ==> s[0] != '0'
    decreases n
  {
    if n < 10 then [DigitChar(n)] else DecimalText(n / 10) + [DigitChar(n % 10)]
  }

  /** The number a run of decimal digits denotes. */
  function DigitsValue(s: seq<char>): nat
    requires AllDigits(s)
  {
    if |s| == 0 then 0
    else
      assert AllDigits(s[..|s| - 1]) by {
        assert forall i :: 0 <= i < |s| - 1 ==> s[..|s| - 1][i] == s[i];
      }
      DigitsValue(s[..|s| - 1]) * 10 + ((s[|s| - 1] as int) - ('0' as int))
  }

  lemma {:induction false} DecimalRoundTrip(n: nat)
    ensures DigitsValue(DecimalText(n)) == n
  {
    if n >= 10 {
      DecimalRoundTrip(n / 10);
      var s := DecimalText(n);
      assert s[..|s| - 1] == DecimalText(n / 10);
    }
  }

  function Pow10(k: nat): nat
  {
    if k == 0 then 1 else 10 * Pow10(k - 1)
  }

  /** Below 10^k a number takes at most k digits. */
  lemma {:induction false} DecimalTextLength(n: nat, k: nat)
    requires 1 <= k && n < Pow10(k)
    ensures |DecimalText(n)| <= k
  {
    if n >= 10 {
      assert k >= 2;
      DecimalTextLength(n / 10, k - 1);
    }
  }

  /** Any 32-bit value needs at most ten digits. */
  lemma DecimalTextOf32Bits(n: nat)
    requires n <= ULongMax
    ensures |DecimalText(n)| <= 10
  {
    assert Pow10(10) == 10_000_000_000;
    DecimalTextLength(n, 10);
  }

  /** The bound is tight: 10^k itself takes k + 1 digits. */
  lemma {:induction false} DecimalTextOfPow10(k: nat)
    ensures |DecimalText(Pow10(k))| == k + 1
  {
    if k > 0 {
      DecimalTextOfPow10(k - 1);
      assert Pow10(k) / 10 == Pow10(k - 1);
    }
  }

  /** The longest run of digits at the start of `s`: what strtoul consumes. */
  function LeadingDigits(s: seq<char>): (r: seq<char>)
    ensures |r| <= |s| && r == s[..|r|] && AllDigits(r)
    ensures |r| < |s| ==> !IsDigit(s[|r|])
  {
    if |s| == 0 || !IsDigit(s[0]) then [] else [s[0]] + LeadingDigits(s[1..])
  }

  /** strtoul(s, NULL, 10) on a 32-bit target, for text without leading blanks or sign. */
  function StrToUL(s: seq<char>): (r: nat)
    ensures r <= ULongMax
  {
    var v := DigitsValue(LeadingDigits(s));
    if v > ULongMax then ULongMax else v
  }

  lemma {:induction false} LeadingDigitsOfDigits(s: seq<char>)
    requires AllDigits(s)
    ensures LeadingDigits(s) == s
  {
    if |s| > 0 {
      assert AllDigits(s[1..]) by {
        assert forall i :: 0 <= i < |s| - 1 ==> s[1..][i] == s[i + 1];
      }
      LeadingDigitsOfDigits(s[1..]);
    }
  }

  /** Parsing back the text printed for a 32-bit value gives the value. */
  lemma StrToULOfDecimal(n: nat)
    requires n <= ULongMax
    ensures StrToUL(DecimalText(n)) == n
  {
    LeadingDigitsOfDigits(DecimalText(n));
    DecimalRoundTrip(n);
  }

  /** Text with no leading digit parses as 0 (so does an erased flash field). */
  lemma StrToULOfNonDigit(s: seq<char>)
    requires |s| > 0 && !IsDigit(s[0])
    ensures StrToUL(s) == 0
  {
  }

  function Magnitude(v: int32): (n: nat)
    ensures n <= ULongMax && (n == v || n == -(v as int))
  {
    if v < 0 then -(v as int) else v as int
  }

  /** snprintf("%d", v) for a C int. */
  function IntText(v: int32): (s: seq<char>)
    ensures 1 <= |s| <= 11 && '\0' !in s
  {
    var n: nat := Magnitude(v);
    var digits := DecimalText(n);
    DecimalTextOf32Bits(n);
    assert '\0' !in digits by {
      assert forall i :: 0 <= i < |digits| ==> IsDigit(digits[i]);
    }
    if v < 0 then ['-'] + digits else digits
  }

  /** Reads back an optionally signed decimal text. */
  function SignedValue(s: seq<char>): int {
    if |s| > 0 && s[0] == '-' then -(DigitsValue(LeadingDigits(s[1..])) as int)
    else DigitsValue(LeadingDigits(s))
  }

  lemma IntTextRoundTrip(v: int32)
    ensures SignedValue(IntText(v)) == v
  {
    var n := Magnitude(v);
    LeadingDigitsOfDigits(DecimalText(n));
    DecimalRoundTrip(n);
    if v < 0 {
      assert IntText(v)[1..] == DecimalText(n);
    } else {
      assert DecimalText(n)[0] != '-';
    }
  }
}
