/** Printing and parsing integers: userland/libc/stdio/vfprintf.c and userland/libc/stdlib/strtoll.c. */
module Numbers {
  import opened Division

  const LLONG_MAX: int := 0x7FFF_FFFF_FFFF_FFFF

  datatype Errno = None | ERANGE | EINVAL

  /** What strtoll returns: the value, the place *endptr is set to, and the error. */
  datatype Parsed = Parsed(value: int, end: nat, errno: Errno)

  // Characters.

  predicate IsSpace(c: char) {
    c == ' ' || '\t' <= c < '\t' + 5 as char
  }

  function ToLower(c: char): char {
    if 'A' <= c <= 'Z' then c - 'A' + 'a' else c
  }

  /** get_value: the digit, or -1. */
  function GetValue(c: char, base: int): (r: int)
    ensures -1 <= r < base || r == -1
  {
    var l := ToLower(c);
    var r := if '0' <= l <= '9' then (l - '0') as int else if 'a' <= l <= 'z' then (l - 'a') as int + 10 else -1;
    if r >= base then -1 else r
  }

  predicate IsDigit(c: char, base: int) {
    GetValue(c, base) != -1
  }

  predicate AllDigits(s: string, base: int) {
    forall i :: 0 <= i < |s| ==> IsDigit(s[i], base)
  }

  /** What a string of digits stands for. */
  function ValueOf(s: string, base: nat): nat
    requires AllDigits(s, base)
  {
    if s == [] then 0
    else
      assert IsDigit(s[|s| - 1], base);
      Shift(ValueOf(s[..|s| - 1], base), base, GetValue(s[|s| - 1], base))
  }

  /** One more digit behind a number. */
  function Shift(v: nat, base: nat, d: nat): (r: nat)
    ensures base >= 1 ==> r >= v
  {
    MulLe(0, v, base);
    if base >= 1 then MulLe(1, base, v); v * base + d else d
  }

  // Parsing.

  /** The first place from i on that is no space. */
  function SkipSpace(s: string, i: nat): (r: nat)
    requires i <= |s|
    ensures i <= r <= |s| && (r < |s| ==> !IsSpace(s[r])) && forall k :: i <= k < r ==> IsSpace(s[k])
    decreases |s| - i
  {
    if i < |s| && IsSpace(s[i]) then SkipSpace(s, i + 1) else i
  }

  /** The end of the digits that start at i. */
  function DigitsEnd(s: string, i: nat, base: int): (r: nat)
    requires i <= |s|
    ensures i <= r <= |s| && (r < |s| ==> !IsDigit(s[r], base)) && AllDigits(s[i..r], base)
    decreases |s| - i
  {
    if i < |s| && IsDigit(s[i], base) then
      var r := DigitsEnd(s, i + 1, base);
      assert s[i..r] == [s[i]] + s[i + 1..r];
      r
    else i
  }

  /** Behind spaces and a plus sign. */
  function Signed(s: string): (r: nat)
    ensures r <= |s|
  {
    var a := SkipSpace(s, 0);
    if a < |s| && s[a] == '+' then a + 1 else a
  }

  /** strtoll stops the program at a minus sign. */
  predicate NoMinus(s: string) {
    var a := SkipSpace(s, 0);
    a < |s| ==> s[a] != '-'
  }

  /** Base 0: the base and the start of the digits by their prefix. */
  function Prefix(s: string, at: nat, base: int): (r: (int, nat))
    requires at <= |s|
    ensures at <= r.1 <= |s|
  {
    if base != 0 then (base, at)
    else if at < |s| && s[at] == '0' then
      if at + 1 < |s| && ToLower(s[at + 1]) == 'x' then (16, at + 2) else (8, at + 1)
    else (10, at)
  }

  /** What strtoll is to return for s: the value of its digits, or the largest value and ERANGE. */
  function Parse(s: string, base: int): Parsed {
    if SkipSpace(s, 0) == |s| then Parsed(0, 0, None)
    else
      var (b, at) := Prefix(s, Signed(s), base);
      if !(2 <= b <= 36) then Parsed(0, 0, EINVAL)
      else
        var end := DigitsEnd(s, at, b);
        var v := ValueOf(s[at..end], b);
        if v > LLONG_MAX then Parsed(LLONG_MAX, 0, ERANGE) else Parsed(v, end, None)
  }

  /** More digits never make a number smaller. */
  lemma {:induction false} ValueGrows(s: string, k: nat, base: nat)
    requires k <= |s| && AllDigits(s, base) && base >= 1
    ensures ValueOf(s[..k], base) <= ValueOf(s, base)
  {
    hide GetValue, Shift;
    if k == |s| {
      assert s[..k] == s;
    } else {
      var init := s[..|s| - 1];
      ValueGrows(init, k, base);
      assert init[..k] == s[..k];
    }
  }

  lemma ValueNext(s: string, at: nat, p: nat, base: nat)
    requires at <= p < |s| && AllDigits(s[at..p], base) && IsDigit(s[p], base)
    ensures AllDigits(s[at..p + 1], base)
            && ValueOf(s[at..p + 1], base) == ValueOf(s[at..p], base) * base + GetValue(s[p], base)
  {
    var t := s[at..p + 1];
    assert t[..|t| - 1] == s[at..p] && t[|t| - 1] == s[p];
    assert t == s[at..p] + [s[p]];
  }

  /** The two overflow tests of strtoll fail exactly when the next value fits. */
  lemma OverflowTests(v: nat, base: nat, d: nat)
    requires 2 <= base && v <= LLONG_MAX
    ensures v > LLONG_MAX / base ==> v * base + d > LLONG_MAX
    ensures v <= LLONG_MAX / base ==> v * base <= LLONG_MAX && (v * base > LLONG_MAX - d <==> v * base + d > LLONG_MAX)
  {
    var q := LLONG_MAX / base;
    assert q * base <= LLONG_MAX < (q + 1) * base;
    if v <= q { assert v * base <= q * base; } else { assert v * base >= (q + 1) * base; }
  }

  /** The digit loop of strtoll: saturates exactly when the digits stand for more than LLONG_MAX. */
  method ParseDigits(s: string, at: nat, base: nat) returns (r: Parsed)
    requires at <= |s| && 2 <= base <= 36
    ensures
      var end := DigitsEnd(s, at, base);
      var v := ValueOf(s[at..end], base);
      r == if v > LLONG_MAX then Parsed(LLONG_MAX, 0, ERANGE) else Parsed(v, end, None)
  {
    hide GetValue, ValueOf;
    var value, p := 0, at;
    NoDigits(s, at, base);
    while p < |s|
      invariant at <= p <= |s| && 0 <= value <= LLONG_MAX && AllDigits(s[at..p], base)
                && value == ValueOf(s[at..p], base)
      invariant DigitsEnd(s, p, base) == DigitsEnd(s, at, base)
    {
      var val := GetValue(s[p], base);
      if val == -1 { break; }
      ValueNext(s, at, p, base);
      OverflowTests(value, base, val);
      var end := DigitsEnd(s, p, base);
      if value > LLONG_MAX / base {
        TooLarge(s, at, p + 1, end, base);
        return Parsed(LLONG_MAX, 0, ERANGE);
      }
      value := value * base;
      if value > LLONG_MAX - val {
        TooLarge(s, at, p + 1, end, base);
        return Parsed(LLONG_MAX, 0, ERANGE);
      }
      value := value + val;
      p := p + 1;
    }
    return Parsed(value, p, None);
  }

  lemma NoDigits(s: string, at: nat, base: nat)
    requires at <= |s|
    ensures AllDigits(s[at..at], base) && ValueOf(s[at..at], base) == 0
  {
  }

  lemma TooLarge(s: string, at: nat, p: nat, end: nat, base: nat)
    requires at <= p <= end <= |s| && base >= 1 && AllDigits(s[at..end], base) && AllDigits(s[at..p], base)
    ensures ValueOf(s[at..p], base) <= ValueOf(s[at..end], base)
  {
    ValueGrows(s[at..end], p - at, base);
    assert s[at..end][..p - at] == s[at..p];
  }

  /** strtoll. */
  method Strtoll(s: string, base: int) returns (r: Parsed)
    requires NoMinus(s)
    ensures r == Parse(s, base)
  {
    hide ValueOf, GetValue, DigitsEnd;
    var p := 0;
    while p < |s| && IsSpace(s[p])
      invariant p <= |s| && SkipSpace(s, p) == SkipSpace(s, 0)
    {
      p := p + 1;
    }
    if p == |s| { return Parsed(0, 0, None); }
    if s[p] == '+' { p := p + 1; }
    var b := base;
    if base == 0 {
      if p < |s| && s[p] == '0' {
        p := p + 1;
        if p < |s| && ToLower(s[p]) == 'x' {
          p := p + 1;
          b := 16;
        } else {
          b := 8;
        }
      } else {
        b := 10;
      }
    }
    if 2 <= b <= 36 {
      r := ParseDigits(s, p, b);
    } else {
      return Parsed(0, 0, EINVAL);
    }
  }

  // Printing.

  /** The set has a character for every digit of the base. */
  ghost predicate CharSet(chars: string, base: nat) {
    2 <= base <= 36 && base <= |chars| && forall d :: 0 <= d < base ==> GetValue(chars[d], base) == d
  }

  /** The digits of n, most significant first. */
  function Numeral(n: nat, base: nat, chars: string): (s: string)
    requires 2 <= base <= |chars|
    ensures |s| >= 1
    decreases n
  {
    if n < base then [chars[n]]
    else
      DivSmaller(n, base);
      Numeral(Div(n, base), base, chars) + [chars[Mod(n, base)]]
  }

  lemma DivSmaller(n: nat, base: nat)
    requires base >= 2 && n >= base
    ensures 0 < Div(n, base) < n
  {
    DivMod(n, base);
    MulLe(2, base, Div(n, base));
  }

  function Repeat(c: char, n: nat): (s: string)
    ensures |s| == n && forall i :: 0 <= i < n ==> s[i] == c
  {
    seq(n, _ => c)
  }

  function Number(n: int, base: nat, chars: string): string
    requires 2 <= base <= |chars|
  {
    if n < 0 then "-" + Numeral(-n, base, chars) else Numeral(n, base, chars)
  }

  /** What fprint_num is to write: the number, filled up to the width on one side. */
  function Printed(n: int, base: nat, chars: string, width: int, zeros: bool, right: bool): string
    requires 2 <= base <= |chars|
  {
    var number := Number(n, base, chars);
    var padding := Repeat(if zeros then '0' else ' ', if width > |number| then width - |number| else 0);
    if right then number + padding else padding + number
  }

  function Reversed(s: string): (r: string)
    ensures |r| == |s|
  {
    if s == [] then [] else [s[|s| - 1]] + Reversed(s[..|s| - 1])
  }

  lemma ReversedMore(s: string, c: char)
    ensures Reversed(s + [c]) == [c] + Reversed(s)
  {
    assert (s + [c])[..|s|] == s;
  }

  lemma NoneReversed(n: nat, base: nat, chars: string)
    requires 2 <= base <= |chars|
    ensures Reversed("") == "" && (n == 0 ==> Numeral(n, base, chars) == [chars[0]])
  {
  }

  function Power8(k: nat): nat {
    if k == 0 then 1 else 8 * Power8(k - 1)
  }

  lemma LargestPower()
    ensures Power8(21) == LLONG_MAX + 1
  {
    assert Power8(7) == 0x20_0000;
    assert Power8(14) == 0x400_0000_0000;
  }

  lemma OneDigitLess(n: nat, base: nat, k: nat)
    requires 8 <= base && 0 < n < Power8(k)
    ensures k > 0 && Div(n, base) < Power8(k - 1)
  {
    hide Div, Mod, Power8;
    NextPower(k);
    DivMod(n, base);
    MulLe(8, base, Div(n, base));
  }

  lemma NextPower(k: nat)
    ensures if k == 0 then Power8(k) == 1 else Power8(k) == 8 * Power8(k - 1)
  {
  }

  /** The digit loop of fprint_num: the digits backwards, never more than the buffer holds. */
  method DigitsOf(number: nat, base: nat, chars: string) returns (str: string)
    requires 8 <= base <= |chars| && number <= LLONG_MAX
    ensures Reversed(str) == Numeral(number, base, chars) && |str| <= 21
  {
    hide Power8, Div, Mod, Numeral, Reversed;
    LargestPower();
    NoneReversed(number, base, chars);
    str := "";
    var n: nat := number;
    if n == 0 {
      ReversedMore("", chars[0]);
      return "" + [chars[0]];
    }
    ghost var k: nat := 21;
    while n != 0 && |str| < 32
      invariant |str| + k == 21 && n < Power8(k)
      invariant Numeral(number, base, chars) == (if n > 0 then Numeral(n, base, chars) else []) + Reversed(str)
      decreases n
    {
      OneDigitLess(n, base, k);
      DivMod(n, base);
      ReversedMore(str, chars[Mod(n, base)]);
      NumeralStep(n, base, chars);
      str := str + [chars[Mod(n, base)]];
      n := Div(n, base);
      k := k - 1;
    }
  }

  lemma NumeralStep(n: nat, base: nat, chars: string)
    requires 2 <= base <= |chars| && n > 0
    ensures Div(n, base) < n
    ensures Numeral(n, base, chars)
            == (if Div(n, base) > 0 then Numeral(Div(n, base), base, chars) else []) + [chars[Mod(n, base)]]
  {
    if n >= base { DivSmaller(n, base); }
  }

  /** fprint_num, for the bases it is used with. */
  method FprintNum(n: int, base: nat, chars: string, width: int, zeros: bool, right: bool) returns (out: string)
    requires 8 <= base <= |chars| && -LLONG_MAX <= n <= LLONG_MAX
    ensures out == Printed(n, base, chars, width, zeros, right)
  {
    hide Numeral, Reversed, Repeat;
    out := "";
    var str := DigitsOf(if n < 0 then -n else n, base, chars);
    if n < 0 {
      ReversedMore(str, '-');
      str := str + ['-'];
    }
    ghost var number := Number(n, base, chars);
    assert Reversed(str) == number;
    var t := if zeros then '0' else ' ';
    var fill := if width > |str| then width - |str| else 0;
    if !right {
      out := WriteMany(out, t, fill);
    }
    out := WriteBackwards(out, str);
    if right {
      out := WriteMany(out, t, fill);
    }
  }

  /** A padding loop of fprint_num. */
  method WriteMany(before: string, t: char, n: nat) returns (out: string)
    ensures out == before + Repeat(t, n)
  {
    out := before;
    for i := 0 to n
      invariant out == before + Repeat(t, i)
    {
      out := out + [t];
    }
  }

  /** The output loop of fprint_num. */
  method WriteBackwards(before: string, str: string) returns (out: string)
    ensures out == before + Reversed(str)
  {
    out := before;
    var i := |str|;
    assert str[..i] == str;
    while i > 0
      invariant 0 <= i <= |str| && out + Reversed(str[..i]) == before + Reversed(str)
    {
      i := i - 1;
      assert str[..i + 1][..i] == str[..i];
      out := out + [str[i]];
    }
  }

  // Printing, then parsing.

  /** A digit is neither a space nor a sign. */
  lemma DigitPlain(c: char, base: int)
    requires IsDigit(c, base)
    ensures !IsSpace(c) && c != '+' && c != '-'
  {
  }

  lemma {:induction false} NumeralDigits(n: nat, base: nat, chars: string)
    requires CharSet(chars, base)
    ensures AllDigits(Numeral(n, base, chars), base) && ValueOf(Numeral(n, base, chars), base) == n
    decreases n
  {
    hide GetValue, Div, Mod;
    DivMod(n, base);
    if n < base {
      var s := [chars[n]];
      assert s[..0] == [] && GetValue(chars[n], base) == n;
    } else {
      DivSmaller(n, base);
      var init, c := Numeral(Div(n, base), base, chars), chars[Mod(n, base)];
      NumeralDigits(Div(n, base), base, chars);
      assert GetValue(c, base) == Mod(n, base);
      assert (init + [c])[..|init|] == init;
    }
  }

  lemma {:induction false} DigitsEndIs(s: string, i: nat, base: int, r: nat)
    requires i <= r <= |s| && AllDigits(s[i..r], base) && (r < |s| ==> !IsDigit(s[r], base))
    ensures DigitsEnd(s, i, base) == r
    decreases r - i
  {
    if i < r {
      assert s[i..r][0] == s[i];
      assert s[i + 1..r] == s[i..r][1..];
      DigitsEndIs(s, i + 1, base, r);
    }
  }

  lemma SkipSpaceIs(s: string, r: nat)
    requires r <= |s| && (forall k :: 0 <= k < r ==> IsSpace(s[k])) && (r < |s| ==> !IsSpace(s[r]))
    ensures SkipSpace(s, 0) == r
  {
  }

  lemma {:induction false} LeadingZeros(k: nat, s: string, base: nat)
    requires 2 <= base && AllDigits(s, base)
    ensures AllDigits(Repeat('0', k) + s, base) && ValueOf(Repeat('0', k) + s, base) == ValueOf(s, base)
    decreases |s|, k
  {
    assert GetValue('0', base) == 0;
    var z := Repeat('0', k);
    if s == [] {
      assert z + s == z;
      if k > 0 {
        LeadingZeros(k - 1, [], base);
        assert z[..k - 1] == Repeat('0', k - 1) == Repeat('0', k - 1) + [];
      }
    } else {
      var init := s[..|s| - 1];
      LeadingZeros(k, init, base);
      var t := z + s;
      assert t[..|t| - 1] == z + init && t[|t| - 1] == s[|s| - 1];
    }
  }

  /** Zeros behind the digits make the number larger, unless it is 0. */
  lemma {:induction false} TrailingZeros(s: string, k: nat, base: nat)
    requires 2 <= base && AllDigits(s, base)
    ensures AllDigits(s + Repeat('0', k), base)
    ensures k > 0 && ValueOf(s, base) > 0 ==> ValueOf(s + Repeat('0', k), base) > ValueOf(s, base)
    ensures ValueOf(s, base) == 0 ==> ValueOf(s + Repeat('0', k), base) == 0
    decreases k
  {
    assert GetValue('0', base) == 0;
    var t := s + Repeat('0', k);
    if k == 0 {
      assert t == s;
    } else {
      TrailingZeros(s, k - 1, base);
      assert t[..|t| - 1] == s + Repeat('0', k - 1);
      Doubles(ValueOf(s + Repeat('0', k - 1), base), base);
      if k == 1 { assert s + Repeat('0', 0) == s; }
    }
  }

  lemma Doubles(v: nat, base: nat)
    requires base >= 2
    ensures Shift(v, base, 0) >= 2 * v && (v == 0 ==> Shift(v, base, 0) == 0)
  {
    MulLe(2, base, v);
  }

  /** Parsing a string of spaces and then digits up to `end`. */
  lemma ParseIs(s: string, base: nat, at: nat, end: nat)
    requires 2 <= base <= 36 && at < end <= |s| && (forall k :: 0 <= k < at ==> IsSpace(s[k]))
    requires AllDigits(s[at..end], base) && (end < |s| ==> !IsDigit(s[end], base))
    ensures NoMinus(s)
    ensures var v := ValueOf(s[at..end], base);
            Parse(s, base) == if v > LLONG_MAX then Parsed(LLONG_MAX, 0, ERANGE) else Parsed(v, end, None)
  {
    hide ValueOf, GetValue;
    assert s[at..end][0] == s[at];
    DigitPlain(s[at], base);
    SkipSpaceIs(s, at);
    DigitsEndIs(s, at, base, end);
  }

  // What strtoll reads, without its own functions.

  /** The characters isspace knows. */
  lemma SpacesExact(c: char)
    ensures IsSpace(c) <==> c in {' ', '\t', '\n', 0x0B as char, 0x0C as char, '\r'}
  {
  }

  /** Digits are 0 to 9, then the letters, small or capital, as far as the base goes. */
  lemma DigitsExact(c: char, base: nat, d: nat)
    requires 2 <= base <= 36
    ensures GetValue(c, base) == d <==>
              && d < base
              && (if d < 10 then c as int == 48 + d else c as int == 97 + d - 10 || c as int == 65 + d - 10)
    ensures GetValue(c, base) == -1 <==> !IsDigit(c, base)
  {
  }

  /** A prefix and the base it stands for when strtoll is to find out. */
  predicate StandsFor(prefix: string, base: nat) {
    (prefix == "" && base == 10) || (prefix == "0" && base == 8) || ((prefix == "0x" || prefix == "0X") && base == 16)
  }

  /** Spaces, perhaps a plus sign, a prefix if the base is to be found out, digits, and anything that is none. */
  ghost predicate Written(s: string, base: int, b: nat, spaces: string, plus: bool, prefix: string, digits: string,
          rest: string) {
    && s == spaces + (if plus then "+" else "") + prefix + digits + rest
    && (forall k :: 0 <= k < |spaces| ==> IsSpace(spaces[k]))
    && 2 <= b <= 36 && AllDigits(digits, b) && (rest != [] ==> !IsDigit(rest[0], b))
    && (if base == 0 then StandsFor(prefix, b) else prefix == "" && base == b)
    && (prefix == "" ==> digits != [] && (base == 0 ==> digits[0] != '0'))
    && (prefix == "0" && digits == [] ==> rest == [] || (rest[0] != 'x' && rest[0] != 'X'))
  }

  /** strtoll reads the digits in the base given, or in the one the prefix stands for. */
  lemma WrittenParses(s: string, base: int, b: nat, spaces: string, plus: bool, prefix: string, digits: string,
          rest: string)
    requires Written(s, base, b, spaces, plus, prefix, digits, rest)
    ensures NoMinus(s)
    ensures
      var v := ValueOf(digits, b);
      var end := |spaces| + (if plus then 1 else 0) + |prefix| + |digits|;
      Parse(s, base) == if v > LLONG_MAX then Parsed(LLONG_MAX, 0, ERANGE) else Parsed(v, end, None)
  {
    hide ValueOf, GetValue, AllDigits;
    var a := |spaces|;
    var at := a + (if plus then 1 else 0);
    var start := at + |prefix|;
    var end := start + |digits|;
    WrittenPlaces(s, base, b, spaces, plus, prefix, digits, rest);
    SkipSpaceIs(s, a);
    assert Signed(s) == at;
    assert Prefix(s, at, base) == (b, start);
    DigitsEndIs(s, start, b, end);
  }

  lemma WrittenPlaces(s: string, base: int, b: nat, spaces: string, plus: bool, prefix: string, digits: string,
          rest: string)
    requires Written(s, base, b, spaces, plus, prefix, digits, rest)
    ensures
      var a := |spaces|;
      var at := a + (if plus then 1 else 0);
      var start := at + |prefix|;
      var end := start + |digits|;
      && a < |s| && at <= |s| && end <= |s| && s[start..end] == digits
      && (forall k :: 0 <= k < a ==> IsSpace(s[k])) && !IsSpace(s[a]) && s[a] != '-' && (plus <==> s[a] == '+')
      && (end < |s| ==> !IsDigit(s[end], b)) && Prefix(s, at, base) == (b, start)
  {
  }

  /** strtoll gives back what fprint_num wrote, exactly unless zeros were filled in on the right of a
      number other than 0. */
  lemma PrintThenParse(n: nat, base: nat, chars: string, width: int, zeros: bool, right: bool)
    requires CharSet(chars, base) && n <= LLONG_MAX
    ensures
      var s := Printed(n, base, chars, width, zeros, right);
      var r := Parse(s, base);
      && NoMinus(s)
      && ((r.value == n && r.errno == None) <==> !(zeros && right && n != 0 && width > |Numeral(n, base, chars)|))
  {
    hide ValueOf, Numeral, Repeat, AllDigits, Parse;
    var digits := Numeral(n, base, chars);
    var k := if width > |digits| then width - |digits| else 0;
    NumeralFacts(n, base, chars);
    if zeros { ZeroFilled(digits, base, k); } else { SpaceFilled(digits, base, k); }
  }

  lemma NumeralFacts(n: nat, base: nat, chars: string)
    requires CharSet(chars, base)
    ensures base <= 36 && Number(n, base, chars) == Numeral(n, base, chars) != []
    ensures AllDigits(Numeral(n, base, chars), base) && ValueOf(Numeral(n, base, chars), base) == n
  {
    hide ValueOf, Numeral;
    NumeralDigits(n, base, chars);
  }

  /** Digits between spaces are read as they are. */
  lemma SpaceFilled(digits: string, base: nat, k: nat)
    requires 2 <= base <= 36 && digits != [] && AllDigits(digits, base) && ValueOf(digits, base) <= LLONG_MAX
    ensures NoMinus(digits + Repeat(' ', k)) && NoMinus(Repeat(' ', k) + digits)
    ensures Parse(digits + Repeat(' ', k), base) == Parsed(ValueOf(digits, base), |digits|, None)
    ensures Parse(Repeat(' ', k) + digits, base) == Parsed(ValueOf(digits, base), k + |digits|, None)
  {
    hide ValueOf, AllDigits, Parse;
    var s, t := digits + Repeat(' ', k), Repeat(' ', k) + digits;
    assert s[0..|digits|] == digits && t[k..k + |digits|] == digits;
    ParseIs(s, base, 0, |digits|);
    ParseIs(t, base, k, k + |digits|);
  }

  /** Zeros on the left do no harm, zeros on the right do unless the number is 0. */
  lemma ZeroFilled(digits: string, base: nat, k: nat)
    requires 2 <= base <= 36 && digits != [] && AllDigits(digits, base) && ValueOf(digits, base) <= LLONG_MAX
    ensures NoMinus(digits + Repeat('0', k)) && NoMinus(Repeat('0', k) + digits)
    ensures var r := Parse(digits + Repeat('0', k), base);
            (r.value == ValueOf(digits, base) && r.errno == None) <==> k == 0 || ValueOf(digits, base) == 0
    ensures Parse(Repeat('0', k) + digits, base) == Parsed(ValueOf(digits, base), k + |digits|, None)
  {
    hide ValueOf, AllDigits, Parse;
    var s, t := digits + Repeat('0', k), Repeat('0', k) + digits;
    LeadingZeros(k, digits, base);
    TrailingZeros(digits, k, base);
    assert s[0..|s|] == s && t[0..|t|] == t;
    if k == 0 { assert s == digits; }
    ParseIs(s, base, 0, |s|);
    ParseIs(t, base, 0, |t|);
  }

  /** Every string of digits that stands for more than LLONG_MAX saturates with ERANGE. */
  lemma Saturates(s: string, base: nat)
    requires 2 <= base <= 36 && s != [] && AllDigits(s, base) && ValueOf(s, base) > LLONG_MAX
    ensures Parse(s, base) == Parsed(LLONG_MAX, 0, ERANGE)
  {
    assert s[0..|s|] == s;
    ParseIs(s, base, 0, |s|);
  }

  /** The printed number fills the width, with its own characters together on the side asked for. */
  lemma PrintedShape(n: int, base: nat, chars: string, width: int, zeros: bool, right: bool)
    requires 2 <= base <= |chars|
    ensures
      var s := Printed(n, base, chars, width, zeros, right);
      var number := (if n < 0 then "-" else "") + Numeral(if n < 0 then -n else n, base, chars);
      var at := if right then 0 else |s| - |number|;
      && |s| == (if width > |number| then width else |number|) && s[at..at + |number|] == number
      && forall k :: 0 <= k < |s| && !(at <= k < at + |number|) ==> s[k] == if zeros then '0' else ' '
  {
    hide Numeral, Repeat;
    var number := Number(n, base, chars);
    assert number == (if n < 0 then "-" else "") + Numeral(if n < 0 then -n else n, base, chars);
    var padding := Repeat(if zeros then '0' else ' ', if width > |number| then width - |number| else 0);
    assert (number + padding)[..|number|] == number && (padding + number)[|padding|..] == number;
  }

  /** A minus sign comes first, or behind spaces, if and only if zeros have not been filled in before it. */
  lemma SignFirstExact(n: int, base: nat, chars: string, width: int, zeros: bool, right: bool)
    requires 2 <= base <= |chars| && n < 0
    ensures
      var s := Printed(n, base, chars, width, zeros, right);
      (exists k :: 0 <= k < |s| && s[k] == '-' && forall j :: 0 <= j < k ==> s[j] == ' ')
      <==> !(zeros && !right && width > 1 + |Numeral(-n, base, chars)|)
  {
    hide Printed, Numeral;
    var s := Printed(n, base, chars, width, zeros, right);
    var len := 1 + |Numeral(-n, base, chars)|;
    var at := if right || width <= len then 0 else width - len;
    PrintedShape(n, base, chars, width, zeros, right);
    assert s[at] == s[at..at + len][0] == '-';
    if at > 0 && zeros { assert s[0] == '0'; }
  }

  /** -5 in four places, filled with zeros. */
  lemma ZerosBeforeMinus()
    ensures Printed(-5, 10, "0123456789", 4, true, false) == "00-5"
  {
    assert Numeral(5, 10, "0123456789") == "5";
    assert Repeat('0', 2) == "00";
  }

  /** The sets fprint_int, fprint_hex and fprint_octal pass. */
  lemma CharSets()
    ensures CharSet("0123456789", 10) && CharSet("0123456789abcdef", 16) && CharSet("012345678", 8)
  {
    var hex := "0123456789abcdef";
    forall d | 0 <= d < 16 ensures GetValue(hex[d], 16) == d {
      if d < 8 { assert hex[d] in "01234567"; } else { assert hex[d] in "89abcdef"; }
    }
  }
}
