/** Numbers as text: `itoa` and `htoa`. */
module NumberText {
  import opened Arithmetic

  function Abs(v: int): nat { if v < 0 then -v else v }

  /** Division and remainder that truncate toward zero. */
  function Div(v: int, b: int): int
    requires b > 0
  {
    if v < 0 then -(-v / b) else v / b
  }

  function Rem(v: int, b: int): int
    requires b > 0
  {
    if v < 0 then -(-v % b) else v % b
  }

  lemma DivShrinks(n: nat, base: nat)
    requires base >= 2 && n > 0
    ensures n / base < n
  {
    var q := n / base;
    MulMono(2, base, q);
    assert q * base <= n;
  }

  /** The digits of n, the least significant first. */
  function Digits(n: nat, base: nat): (d: seq<nat>)
    requires base >= 2
    ensures |d| > 0 && forall i :: 0 <= i < |d| ==> d[i] < base
    decreases n
  {
    if n < base then [n]
    else
      DivShrinks(n, base);
      [n % base] + Digits(n / base, base)
  }

  function Value(d: seq<nat>, base: nat): nat {
    if d == [] then 0 else d[0] + base * Value(d[1..], base)
  }

  lemma {:induction false} DigitsHaveValue(n: nat, base: nat)
    requires base >= 2
    ensures Value(Digits(n, base), base) == n
    decreases n
  {
    var d := Digits(n, base);
    if n < base {
      assert d[1..] == [];
    } else {
      DivShrinks(n, base);
      assert d[1..] == Digits(n / base, base) && d[0] == n % base;
      DigitsHaveValue(n / base, base);
      DivMod(n, base);
    }
  }

  /** Digit sequences of one length are told apart by their values. */
  lemma {:induction false} ValueIsInjective(d: seq<nat>, e: seq<nat>, base: nat)
    requires |d| == |e| && (forall i :: 0 <= i < |d| ==> d[i] < base && e[i] < base)
    requires Value(d, base) == Value(e, base)
    ensures d == e
  {
    if d != [] {
      SameRemainder(d[0], Value(d[1..], base), e[0], Value(e[1..], base), base);
      ValueIsInjective(d[1..], e[1..], base);
    }
  }

  function Reverse(d: seq<nat>): (r: seq<nat>)
    ensures |r| == |d| && forall i :: 0 <= i < |d| ==> r[i] == d[|d| - 1 - i]
  {
    seq(|d|, i requires 0 <= i < |d| => d[|d| - 1 - i])
  }

  function DigitChar(d: nat): char
    requires d < 36
  {
    if d < 10 then '0' + d as char else 'a' + (d - 10) as char
  }

  function CharDigit(c: char): nat {
    if '0' <= c <= '9' then (c - '0') as nat
    else if 'a' <= c <= 'z' then (c - 'a') as nat + 10
    else if 'A' <= c <= 'Z' then (c - 'A') as nat + 10
    else 0
  }

  function Chars(d: seq<nat>): (s: string)
    requires forall i :: 0 <= i < |d| ==> d[i] < 36
    ensures |s| == |d| && forall i :: 0 <= i < |d| ==> s[i] == DigitChar(d[i])
  {
    seq(|d|, i requires 0 <= i < |d| => DigitChar(d[i]))
  }

  /** Reads a text of digits, the most significant first. */
  function Parse(s: string, base: nat): nat {
    if s == "" then 0 else Parse(s[..|s| - 1], base) * base + CharDigit(s[|s| - 1])
  }

  lemma {:induction false} ParseReversed(d: seq<nat>, s: string, base: nat)
    requires |s| == |d| && forall i :: 0 <= i < |d| ==> CharDigit(s[|d| - 1 - i]) == d[i]
    ensures Parse(s, base) == Value(d, base)
    decreases |d|
  {
    if d != [] {
      ParseReversed(d[1..], s[..|s| - 1], base);
    }
  }

  lemma CharDigitOfDigitChar(d: nat)
    requires d < 36
    ensures CharDigit(DigitChar(d)) == d
  {
  }

  /** The digits, most significant first, as `itoa` leaves them: its swap always stores the
      last digit, so that the later half of the text repeats it. */
  function Smeared(d: seq<nat>): (e: seq<nat>)
    requires |d| > 0
    ensures |e| == |d| && forall i :: 0 <= i < |d| ==> e[i] == if i < |d| / 2 then d[0] else d[i]
  {
    seq(|d|, i requires 0 <= i < |d| => if i < |d| / 2 then d[0] else d[i])
  }

  function Magnitude(value: int, base: nat): string
    requires 2 <= base <= 36
  {
    Chars(Reverse(Smeared(Digits(Abs(value), base))))
  }

  /** The text that `itoa` leaves in its buffer. */
  function Itoa(value: int, base: int): string {
    if base < 2 || base > 36 then ""
    else (if value < 0 && base == 10 then "-" else "") + Magnitude(value, base)
  }

  /** The lower half of the digits all equal the last digit. */
  predicate LowHalfEqual(d: seq<nat>) { forall i :: 0 <= i < |d| / 2 ==> d[i] == d[0] }

  /** In every base the digits of the text stand for the magnitude of the number if and only
      if the lower half of the digits are all equal. */
  lemma MagnitudeIff(value: int, base: nat)
    requires 2 <= base <= 36
    ensures Parse(Magnitude(value, base), base) == Abs(value) <==> LowHalfEqual(Digits(Abs(value), base))
  {
    var d := Digits(Abs(value), base);
    var e := Smeared(d);
    var s := Magnitude(value, base);
    forall i | 0 <= i < |e| ensures CharDigit(s[|e| - 1 - i]) == e[i] {
      CharDigitOfDigitChar(e[i]);
    }
    ParseReversed(e, s, base);
    DigitsHaveValue(Abs(value), base);
    if Value(e, base) == Value(d, base) {
      ValueIsInjective(d, e, base);
      forall i | 0 <= i < |d| / 2 ensures d[i] == d[0] {
        assert d[i] == e[i];
      }
    } else {
      assert d != e;
    }
  }

  /** Reads an optional minus sign and a decimal number. */
  function ParseInt(s: string): int {
    if s != "" && s[0] == '-' then -(Parse(s[1..], 10) as int) else Parse(s, 10)
  }

  /** `itoa` in base 10 reads back as the number if and only if the lower half of the digits
      are all equal. */
  lemma ItoaIff(value: int)
    ensures ParseInt(Itoa(value, 10)) == value <==> LowHalfEqual(Digits(Abs(value), 10))
  {
    hide Magnitude, Parse, LowHalfEqual, Digits;
    var s, m := Itoa(value, 10), Magnitude(value, 10);
    MagnitudeIff(value, 10);
    NoSign(value, 10);
    if value < 0 {
      assert s == "-" + m;
      assert s[0] == '-' && s[1..] == m;
    } else {
      assert s == m;
    }
  }

  lemma NoSign(value: int, base: nat)
    requires 2 <= base <= 36
    ensures Magnitude(value, base) != "" && Magnitude(value, base)[0] != '-'
  {
    var e := Reverse(Smeared(Digits(Abs(value), base)));
    assert DigitChar(e[0]) != '-';
  }

  lemma FewDigits(n: nat, k: nat)
    requires k > 0 && (n < 10 || (k > 1 && |Digits(n / 10, 10)| <= k - 1))
    ensures |Digits(n, 10)| <= k
  {
  }

  /** Below a thousand there is nothing to smear. */
  lemma SmallNumbersRoundTrip(value: int)
    requires -1000 < value < 1000
    ensures ParseInt(Itoa(value, 10)) == value
  {
    var n := Abs(value);
    FewDigits(n / 10 / 10, 1);
    FewDigits(n / 10, 2);
    FewDigits(n, 3);
    ItoaIff(value);
  }

  const BACK: string := "zyxwvutsrqponmlkjihgfedcba987654321"
  const FORTH: string := "0123456789abcdefghijklmnopqrstuvwxyz"
  /** The table of `itoa`, which is indexed by 35 plus a remainder of either sign. */
  const TABLE: string := BACK + FORTH

  lemma BackEntry(k: nat)
    requires k < 35
    ensures |BACK| == 35 && BACK[k] == DigitChar(35 - k)
  {
  }

  lemma ForthEntry(k: nat)
    requires k < 36
    ensures |FORTH| == 36 && FORTH[k] == DigitChar(k)
  {
  }

  lemma TableEntry(r: int)
    requires -36 < r < 36
    ensures |TABLE| == 71 && TABLE[35 + r] == DigitChar(Abs(r))
  {
    hide DigitChar;
    BackEntry(0);
    ForthEntry(0);
    if r < 0 {
      BackEntry(35 + r);
    } else {
      ForthEntry(r);
    }
  }

  lemma DivParts(v: int, base: nat)
    requires base >= 2
    ensures Abs(Div(v, base)) == Abs(v) / base
  {
  }

  lemma RemParts(v: int, base: nat)
    requires base >= 2
    ensures Abs(Rem(v, base)) == Abs(v) % base
  {
  }

  /** One round of the digit loop. */
  lemma DigitStep(v: int, base: nat)
    requires 2 <= base <= 36
    ensures var d := Digits(Abs(v), base);
      && -36 < Rem(v, base) < 36 && |TABLE| == 71 && TABLE[35 + Rem(v, base)] == DigitChar(d[0])
      && (Div(v, base) == 0 <==> |d| == 1)
      && (|d| > 1 ==> d[1..] == Digits(Abs(Div(v, base)), base) && Abs(Div(v, base)) < Abs(v))
  {
    hide DigitChar, Div, Rem;
    var n := Abs(v);
    DivParts(v, base);
    RemParts(v, base);
    TableEntry(Rem(v, base));
    if n < base {
      SmallDiv(n, base);
    } else {
      DivShrinks(n, base);
      LargeDiv(n, base);
    }
  }

  lemma SmallDiv(n: nat, base: nat)
    requires n < base
    ensures n / base == 0 && n % base == n
  {
  }

  lemma LargeDiv(n: nat, base: nat)
    requires 0 < base <= n
    ensures n / base >= 1
  {
    assert n == base * (n / base) + n % base;
  }

  lemma SmearedText(d: seq<nat>, i: nat)
    requires 0 < |d| && i < |d| && forall j :: 0 <= j < |d| ==> d[j] < 36
    ensures Chars(Reverse(Smeared(d)))[i] == if i >= |d| - |d| / 2 then DigitChar(d[0]) else DigitChar(d[|d| - 1 - i])
  {
  }

  /** Writes the digits of value from position low on, the least significant first. */
  method WriteDigits(value: int, result: array<char>, base: nat, low: nat) returns (ptr: nat)
    requires 2 <= base <= 36 && low + |Digits(Abs(value), base)| < result.Length
    modifies result
    ensures var d := Digits(Abs(value), base);
      ptr == low + |d| && (forall j :: low <= j < ptr ==> result[j] == DigitChar(d[j - low]))
    ensures forall j :: 0 <= j < low ==> result[j] == old(result[j])
  {
    hide DigitChar, Div, Rem, Abs;
    ghost var d := Digits(Abs(value), base);
    var v := value;
    DigitStep(v, base);
    result[low] := TABLE[35 + Rem(v, base)];
    ptr := low + 1;
    v := Div(v, base);
    while v != 0
      invariant low < ptr <= low + |d|
      invariant forall j :: low <= j < ptr ==> result[j] == DigitChar(d[j - low])
      invariant forall j :: 0 <= j < low ==> result[j] == old(result[j])
      invariant if v == 0 then ptr == low + |d| else ptr < low + |d| && d[ptr - low..] == Digits(Abs(v), base)
      decreases low + |d| - ptr
    {
      DigitStep(v, base);
      assert d[ptr - low] == Digits(Abs(v), base)[0];
      result[ptr] := TABLE[35 + Rem(v, base)];
      ptr := ptr + 1;
      v := Div(v, base);
    }
  }

  /** The loop that is meant to reverse a text in place, from both ends. */
  function Swap(s: string, low: nat, ptr: int, tmp: char): (r: string)
    requires ptr < |s|
    ensures |r| == |s|
    decreases ptr - low
  {
    if low < ptr then Swap(s[low := s[ptr]][ptr := tmp], low + 1, ptr - 1, tmp) else s
  }

  lemma {:induction false} SwapAt(s: string, low: nat, ptr: int, tmp: char, p: nat)
    requires ptr < |s| && p < |s| && low <= ptr + 1
    ensures var half := (ptr + 1 - low) / 2;
      Swap(s, low, ptr, tmp)[p] ==
        if low <= p < low + half then s[low + ptr - p] else if ptr - half < p <= ptr then tmp else s[p]
    decreases ptr - low
  {
    if low < ptr {
      SwapAt(s[low := s[ptr]][ptr := tmp], low + 1, ptr - 1, tmp, p);
    }
  }

  /** Applied to digits written the least significant first, it smears them. */
  lemma SwapSmears(s: string, low: nat, d: seq<nat>, i: nat)
    requires |d| > 0 && (forall j :: 0 <= j < |d| ==> d[j] < 36) && low + |d| <= |s| && i < |s|
    requires forall j :: low <= j < low + |d| ==> s[j] == DigitChar(d[j - low])
    ensures Swap(s, low, low + |d| - 1, s[low])[i] ==
      if low <= i < low + |d| then Chars(Reverse(Smeared(d)))[i - low] else s[i]
  {
    hide DigitChar, Swap, Chars;
    var n := |d|;
    SwapAt(s, low, low + n - 1, s[low], i);
    if low <= i < low + n {
      SmearedText(d, i - low);
    }
  }

  method SwapDigits(result: array<char>, low0: nat, last: nat)
    requires low0 <= last < result.Length
    modifies result
    ensures result[..] == Swap(old(result[..]), low0, last, old(result[low0]))
  {
    var low, ptr := low0, last;
    var tmp := result[low];
    while low < ptr
      invariant 0 <= low <= ptr + 1 && ptr < result.Length
      invariant Swap(result[..], low, ptr, tmp) == Swap(old(result[..]), low0, last, tmp)
      decreases ptr - low
    {
      ghost var s := result[..];
      result[low] := result[ptr];
      result[ptr] := tmp;
      assert result[..] == s[low := s[ptr]][ptr := tmp];
      low := low + 1;
      ptr := ptr - 1;
    }
  }

  function SignLen(value: int, base: int): nat { if value < 0 && base == 10 then 1 else 0 }

  lemma ItoaLength(value: int, base: nat)
    requires 2 <= base <= 36
    ensures |Itoa(value, base)| == SignLen(value, base) + |Digits(Abs(value), base)|
  {
    hide Abs, Digits;
  }

  lemma ItoaChar(value: int, base: nat, d: seq<nat>, i: nat)
    requires 2 <= base <= 36 && d == Digits(Abs(value), base)
    requires SignLen(value, base) <= i < |Itoa(value, base)|
    ensures i - SignLen(value, base) < |d|
    ensures Itoa(value, base)[i] == Chars(Reverse(Smeared(d)))[i - SignLen(value, base)]
  {
    hide Abs, Digits, Chars, Reverse, Smeared;
  }

  lemma ItoaSign(value: int, base: nat)
    requires 2 <= base <= 36 && SignLen(value, base) == 1
    ensures |Itoa(value, base)| > 0 && Itoa(value, base)[0] == '-'
  {
  }

  /** The sign, the digits and the end mark, once swapped, are the text and the end mark. */
  lemma SwappedText(value: int, base: nat, s: string, low: nat, d: seq<nat>, i: nat)
    requires 2 <= base <= 36 && low == SignLen(value, base) && d == Digits(Abs(value), base)
    requires low + |d| < |s| && i <= low + |d| && (low == 1 ==> s[0] == '-')
    requires forall j :: low <= j < low + |d| ==> s[j] == DigitChar(d[j - low])
    ensures |Itoa(value, base)| == low + |d|
    ensures Swap(s, low, low + |d| - 1, s[low])[i] == if i < low + |d| then Itoa(value, base)[i] else s[i]
  {
    hide DigitChar, Abs, Swap, Itoa, Digits, Chars, Reverse, Smeared;
    ItoaLength(value, base);
    SwapSmears(s, low, d, i);
    if i < low {
      ItoaSign(value, base);
    } else if i < low + |d| {
      ItoaChar(value, base, d, i);
    }
  }

  lemma SwappedIsItoa(value: int, base: nat, s: string, low: nat, d: seq<nat>)
    requires 2 <= base <= 36 && low == SignLen(value, base) && d == Digits(Abs(value), base)
    requires low + |d| < |s| && (low == 1 ==> s[0] == '-') && s[low + |d|] == 0 as char
    requires forall j :: low <= j < low + |d| ==> s[j] == DigitChar(d[j - low])
    ensures IsText(Swap(s, low, low + |d| - 1, s[low]), Itoa(value, base))
  {
    hide DigitChar, Abs, Swap, Itoa, Digits, SignLen;
    var r, text := Swap(s, low, low + |d| - 1, s[low]), Itoa(value, base);
    SwappedText(value, base, s, low, d, low + |d|);
    forall i: nat | i < |text| ensures r[i] == text[i] {
      SwappedText(value, base, s, low, d, i);
    }
    assert r[..|text|] == text;
  }

  /** The buffer holds the text and an end mark. */
  predicate IsText(buffer: string, text: string) {
    |text| < |buffer| && buffer[..|text|] == text && buffer[|text|] == 0 as char
  }

  /** Writes the sign, and says where the digits start. */
  method WriteSign(value: int, result: array<char>, base: int) returns (low: nat)
    requires result.Length > 0
    modifies result
    ensures low == SignLen(value, base) && (low == 1 ==> result[0] == '-')
  {
    low := 0;
    if value < 0 && base == 10 {
      result[low] := '-';
      low := low + 1;
    }
  }

  lemma NoDigits(value: int, base: int, s: string)
    requires (base < 2 || base > 36) && |s| > 0 && s[0] == 0 as char
    ensures IsText(s, Itoa(value, base))
  {
  }

  /** Leaves the text in the buffer, with an end mark behind it. */
  method WriteItoa(value: int, result: array<char>, base: int)
    requires |Itoa(value, base)| < result.Length
    modifies result
    ensures IsText(result[..], Itoa(value, base))
  {
    hide DigitChar, Abs, Swap, Itoa, Digits, SignLen, IsText;
    if base < 2 || base > 36 {
      result[0] := 0 as char;
      NoDigits(value, base, result[..]);
      return;
    }
    ghost var d := Digits(Abs(value), base);
    ItoaLength(value, base);
    var low := WriteSign(value, result, base);
    var ptr := WriteDigits(value, result, base, low);
    result[ptr] := 0 as char;
    SwappedIsItoa(value, base, result[..], low, d);
    SwapDigits(result, low, ptr - 1);
  }

  /** The text of 1234 does not read back. */
  lemma ItoaLosesDigits()
    ensures Itoa(1234, 10) == "1244" && ParseInt(Itoa(1234, 10)) != 1234
  {
    hide Parse, ParseInt, LowHalfEqual;
    var d := Digits(1234, 10);
    DigitsOf1234();
    assert d[1] != d[0];
    assert !LowHalfEqual(d) by {
      SmearedDiffers(d, 1);
    }
    ItoaIff(1234);
    assert Reverse(Smeared(d)) == [1, 2, 4, 4];
    assert Chars([1, 2, 4, 4]) == "1244";
  }

  lemma SmearedDiffers(d: seq<nat>, i: nat)
    requires i < |d| / 2 && d[i] != d[0]
    ensures !LowHalfEqual(d)
  {
  }

  lemma DigitsOf1234()
    ensures Digits(1234, 10) == [4, 3, 2, 1]
  {
    assert Digits(12, 10) == [2, 1];
    assert Digits(123, 10) == [3, 2, 1];
  }

  function HexChar(d: nat, caps: bool): char
    requires d < 16
  {
    if d >= 10 then (if caps then 'A' else 'a') + (d - 10) as char else '0' + d as char
  }

  /** The hexadecimal digits, the most significant first, without leading zeros. */
  function HexText(n: nat, caps: bool): (s: string)
    ensures |s| == |Digits(n, 16)|
  {
    var d := Digits(n, 16);
    seq(|d|, i requires 0 <= i < |d| => HexChar(d[|d| - 1 - i], caps))
  }

  function Htoa(n: nat, caps: bool): string { "0x" + HexText(n, caps) }

  /** Skips the "0x" and reads a hexadecimal number, in letters of either case. */
  function ParseHex(s: string): nat {
    if |s| < 2 then 0 else Parse(s[2..], 16)
  }

  lemma HtoaRoundTrip(n: nat, caps: bool)
    ensures Htoa(n, caps)[..2] == "0x" && ParseHex(Htoa(n, caps)) == n
  {
    var d, s := Digits(n, 16), HexText(n, caps);
    assert Htoa(n, caps)[2..] == s;
    forall i | 0 <= i < |d| ensures CharDigit(s[|d| - 1 - i]) == d[i] {
      assert s[|d| - 1 - i] == HexChar(d[i], caps);
    }
    ParseReversed(d, s, 16);
    DigitsHaveValue(n, 16);
  }

  lemma {:induction false} TopDigit(n: nat, base: nat)
    requires base >= 2 && n > 0
    ensures var d := Digits(n, base); d[|d| - 1] != 0
    decreases n
  {
    if n >= base {
      DivShrinks(n, base);
      LargeDiv(n, base);
      TopDigit(n / base, base);
    }
  }

  lemma HtoaHasNoLeadingZero(n: nat, caps: bool)
    ensures Htoa(n, caps)[2] == '0' <==> n == 0
  {
    var d := Digits(n, 16);
    assert Htoa(n, caps)[2] == HexChar(d[|d| - 1], caps);
    if n > 0 {
      TopDigit(n, 16);
    }
  }

  /** Behind the "0x" are decimal digits and letters from a to f, of the case that caps says. */
  lemma HtoaChars(n: nat, caps: bool, i: nat)
    requires 2 <= i < |Htoa(n, caps)|
    ensures var c := Htoa(n, caps)[i]; '0' <= c <= '9' || (if caps then 'A' <= c <= 'F' else 'a' <= c <= 'f')
  {
    var d := Digits(n, 16);
    assert Htoa(n, caps)[i] == HexChar(d[|d| - 1 - (i - 2)], caps);
  }

  /** Character i of the digits, and its digit. */
  lemma MagnitudeChar(value: int, base: nat, i: nat)
    requires 2 <= base <= 36 && i < |Magnitude(value, base)|
    ensures var (c, d) := (Magnitude(value, base)[i], Digits(Abs(value), base));
      && |Magnitude(value, base)| == |d| && c == DigitChar(Smeared(d)[|d| - 1 - i])
      && ('0' <= c <= '9' || 'a' <= c <= 'z') && CharDigit(c) < base
  {
    var d := Digits(Abs(value), base);
    CharOfDigit(Smeared(d)[|d| - 1 - i]);
  }

  /** Every character of `itoa` is a digit below the base, in lower case, but for the sign of a negative
      number in base 10. */
  lemma ItoaChars(value: int, base: nat, i: nat)
    requires 2 <= base <= 36 && i < |Itoa(value, base)|
    ensures var c := Itoa(value, base)[i];
      if i == 0 && value < 0 && base == 10 then c == '-'
      else ('0' <= c <= '9' || 'a' <= c <= 'z') && CharDigit(c) < base
  {
    hide Magnitude, CharDigit;
    var sign := if value < 0 && base == 10 then 1 else 0;
    if i >= sign {
      MagnitudeChar(value, base, i - sign);
    }
  }

  lemma CharOfDigit(d: nat)
    requires d < 36
    ensures var c := DigitChar(d); ('0' <= c <= '9' || 'a' <= c <= 'z') && CharDigit(c) == d
  {
  }

  lemma MagnitudeStart(value: int, base: nat)
    requires 2 <= base <= 36
    ensures Magnitude(value, base) != "" && (Magnitude(value, base)[0] == '0' <==> value == 0)
  {
    hide Magnitude, DigitChar, CharDigit;
    var d := Digits(Abs(value), base);
    MagnitudeFits(value, base);
    MagnitudeChar(value, base, 0);
    TopChar(Smeared(d)[|d| - 1]);
    if value != 0 {
      TopDigit(Abs(value), base);
    }
  }

  lemma MagnitudeFits(value: int, base: nat)
    requires 2 <= base <= 36
    ensures |Magnitude(value, base)| == |Digits(Abs(value), base)|
  {
  }

  lemma TopChar(d: nat)
    requires d < 36
    ensures DigitChar(d) == '0' <==> d == 0
  {
  }

  /** The text is empty exactly in the bases that there are no digits for, and its digits start with a
      zero only for zero. */
  lemma ItoaStart(value: int, base: int)
    ensures var text, sign := Itoa(value, base), if value < 0 && base == 10 then 1 else 0;
      if base < 2 || base > 36 then text == ""
      else |text| > sign && (text[sign] == '0' <==> value == 0)
  {
    hide Magnitude;
    if 2 <= base <= 36 {
      MagnitudeStart(value, base);
    }
  }

  function Upper(c: char): char {
    if 'a' <= c <= 'z' then 'A' + (c - 'a') else c
  }

  /** Capitals change the case of letters and nothing else. */
  lemma CapsChangeCaseOnly(n: nat, i: nat)
    ensures |Htoa(n, true)| == |Htoa(n, false)|
    ensures 2 <= i < |Htoa(n, true)| ==> Htoa(n, true)[i] == Upper(Htoa(n, false)[i])
  {
    var d := Digits(n, 16);
    if 2 <= i < 2 + |d| {
      var k := d[|d| - 1 - (i - 2)];
      assert Htoa(n, true)[i] == HexChar(k, true) && Htoa(n, false)[i] == HexChar(k, false);
    }
  }

  lemma ShrDigit(n: nat, i: nat)
    ensures Shr(n, i + 4) == Shr(n, i) / 16
  {
    ShrMore(n, i, 4);
    ShrDivides(Shr(n, i), 4);
    assert Pow2(4) == 16;
  }

  lemma {:induction false} ShrOut(n: nat, i: nat)
    requires n < Pow2(i)
    ensures Shr(n, i) == 0
  {
    if i > 0 {
      ShrOut(n / 2, i - 1);
    }
  }

  lemma {:induction false} ShrBelow(n: nat, i: nat)
    ensures Shr(n, i) <= n
  {
    if i > 0 {
      ShrBelow(n / 2, i - 1);
    }
  }

  lemma {:induction false} DigitsGrow(a: nat, b: nat)
    requires a <= b
    ensures |Digits(a, 16)| <= |Digits(b, 16)|
    decreases b
  {
    if a >= 16 {
      DigitsGrow(a / 16, b / 16);
    }
  }

  /** A 64-bit number takes 3 to 18 characters. */
  lemma HtoaLength(n: nat, caps: bool)
    requires n < Pow2(64)
    ensures 3 <= |Htoa(n, caps)| <= 18
  {
    DigitsFit(n, 16);
  }

  lemma {:induction false} DigitsFit(n: nat, k: nat)
    requires k > 0 && n < Pow2(4 * k)
    ensures |Digits(n, 16)| <= k
    decreases k
  {
    FourDoublings(4 * k);
    if n >= 16 {
      if k > 1 {
        DigitsFit(n / 16, k - 1);
      }
    }
  }

  lemma FourDoublings(i: nat)
    requires i >= 4
    ensures Pow2(i) == 16 * Pow2(i - 4)
  {
    assert Pow2(i - 1) == 2 * Pow2(i - 2) && Pow2(i - 3) == 2 * Pow2(i - 4);
  }

  /** One more digit at the right. */
  lemma HexStep(n: nat, caps: bool)
    ensures HexText(n, caps) == (if n < 16 then "" else HexText(n / 16, caps)) + [HexChar(n % 16, caps)]
  {
    hide HexChar;
    var s, d := HexText(n, caps), Digits(n, 16);
    var p := s[..|s| - 1];
    assert s == p + [s[|s| - 1]] && s[|s| - 1] == HexChar(d[0], caps);
    if n >= 16 {
      assert d[1..] == Digits(n / 16, 16);
      HexTextTail(n, caps);
    }
  }

  lemma HexTextTail(n: nat, caps: bool)
    requires n >= 16
    ensures HexText(n, caps)[..|HexText(n, caps)| - 1] == HexText(n / 16, caps)
  {
    hide HexChar;
    var d := Digits(n, 16);
    assert d == [n % 16] + Digits(n / 16, 16);
  }

  /** The text written before bit i: leading zeros are left out. */
  ghost function HexPrefix(n: nat, i: nat, caps: bool): string {
    if Shr(n, i) == 0 then "" else HexText(Shr(n, i), caps)
  }

  lemma HexPrefixStep(n: nat, i: nat, caps: bool)
    ensures HexPrefix(n, i, caps) ==
      if Shr(n, i) == 0 then "" else HexPrefix(n, i + 4, caps) + [HexChar(Shr(n, i) % 16, caps)]
    ensures Shr(n, i) == 0 <==> Shr(n, i + 4) == 0 && Shr(n, i) % 16 == 0
    ensures Shr(n, i + 4) == 0 ==> HexPrefix(n, i + 4, caps) == ""
  {
    hide HexText;
    ShrDigit(n, i);
    HexStep(Shr(n, i), caps);
  }

  lemma HexPrefixFits(n: nat, i: nat, caps: bool)
    ensures |HexPrefix(n, i, caps)| <= |HexText(n, caps)|
  {
    hide HexText, Shr;
    ShrBelow(n, i);
    DigitsGrow(Shr(n, i), n);
  }

  lemma HexPrefixStart(n: nat, caps: bool)
    requires n < Pow2(64)
    ensures Shr(n, 64) == 0 && HexPrefix(n, 64, caps) == ""
  {
    hide Shr, Pow2;
    ShrOut(n, 64);
  }

  lemma HexPrefixEnd(n: nat, caps: bool)
    ensures HexText(n, caps) == HexPrefix(n, 4, caps) + [HexChar(n % 16, caps)]
  {
    hide HexText;
    ShrDigit(n, 0);
    HexStep(n, caps);
  }

  /** Writes the text, without an end mark. */
  method WriteHtoa(n: nat, str: array<char>, caps: bool)
    requires n < Pow2(64) && |Htoa(n, caps)| <= str.Length
    modifies str
    ensures str[..|Htoa(n, caps)|] == Htoa(n, caps)
    ensures forall k :: |Htoa(n, caps)| <= k < str.Length ==> str[k] == old(str[k])
  {
    hide HexText, HexChar, Pow2, Shr, HexPrefix;
    str[0] := '0';
    str[1] := 'x';
    var ptr, zeros := 2, 0;
    HexPrefixStart(n, caps);
    var i := 60;
    while i > 0
      invariant 0 <= i <= 60 && i % 4 == 0
      invariant zeros == 0 <==> Shr(n, i + 4) == 0
      invariant zeros <= 0
      invariant ptr == 2 + |HexPrefix(n, i + 4, caps)| <= str.Length
      invariant str[..ptr] == "0x" + HexPrefix(n, i + 4, caps)
      invariant forall k :: ptr <= k < str.Length ==> str[k] == old(str[k])
    {
      HexPrefixStep(n, i, caps);
      HexPrefixFits(n, i, caps);
      var tmp := Shr(n, i) % 16;
      if tmp == 0 && zeros == 0 {
        i := i - 4;
        continue;
      }
      zeros := zeros - 1;
      str[ptr] := HexChar(tmp, caps);
      ptr := ptr + 1;
      i := i - 4;
    }
    HexPrefixEnd(n, caps);
    str[ptr] := HexChar(n % 16, caps);
  }
}
