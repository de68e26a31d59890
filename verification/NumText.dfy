/** Numbers as text: the 64-bit division of lib/div64.c, and printing and parsing in lib/cvt.c. */
module NumText {
  import opened Common

  const WORD32: nat := 0x1_0000_0000
  const WORD64: nat := 0x1_0000_0000_0000_0000
  const SIGN64: nat := 0x8000_0000_0000_0000

  // ---------- __div64_u32 ----------

  /** Twice the divisor as often as needed: the largest multiple that is subtracted first. */
  method ScaleUp(base: nat, rem: nat) returns (b: nat, d: nat, ghost k: nat)
    requires 0 < base < WORD32 && rem < WORD64
    ensures d == Pow2(k) && b == base * d && b < WORD64 && rem < 2 * b
  {
    b, d, k := base, 1, 0;
    while 0 < b < SIGN64 && b < rem
      invariant d == Pow2(k) && b == base * d && 0 < b < WORD64
      decreases WORD64 - b
    {
      Doubled(base, d);
      b := 2 * b % WORD64;
      d := 2 * d % WORD64;
      k := k + 1;
    }
  }

  lemma Doubled(base: nat, d: nat)
    requires 0 < base && base * d < SIGN64
    ensures 2 * (base * d) == base * (2 * d) && d < SIGN64
    ensures 2 * (base * d) % WORD64 == 2 * (base * d) && 2 * d % WORD64 == 2 * d
  {
    if d > 0 { Multiples(1, base, d); }
  }

  lemma Halved(base: nat, k: nat)
    ensures base * Pow2(k) / 2 == (if k > 0 then base * Pow2(k - 1) else base / 2)
    ensures Pow2(k) / 2 == (if k > 0 then Pow2(k - 1) else 0)
    ensures k > 0 ==> base * Pow2(k) == 2 * (base * Pow2(k - 1))
  {
    if k > 0 {
      assert base * Pow2(k) == 2 * (base * Pow2(k - 1));
    } else {
      assert base * Pow2(0) == base;
    }
  }

  /** The high half is divided first, and taken out. */
  method TakeHigh(n: nat, base: nat) returns (rem: nat, res: nat)
    requires n < WORD64 && 0 < base < WORD32
    ensures n == res * base + rem
  {
    var high := n / WORD32;
    rem, res := n, 0;
    HighPart(n, base);
    if high >= base {
      high := high / base;
      res := high * WORD32;
      rem := rem - high * base % WORD32 * WORD32;
    }
  }

  /** Shift and subtract: the quotient and the remainder of any 64-bit number. */
  method Div64(n: nat, base: nat) returns (q: nat, r: nat)
    requires n < WORD64 && 0 < base < WORD32
    ensures q == n / base && r == n % base
  {
    hide Pow2;
    var rem, res := TakeHigh(n, base);
    var b, d;
    ghost var k: nat;
    b, d, k := ScaleUp(base, rem);
    // d is not 0 at first: the source tests it after each round.
    while d != 0
      invariant if d == 0 then rem < base else d == Pow2(k) && b == base * d && rem < 2 * b
      invariant n == res * base + rem && 0 <= rem && 0 <= res
      decreases d
    {
      Halved(base, k);
      if rem >= b {
        OneMore(res, d, base);
        rem := rem - b;
        res := res + d;
      }
      b := b / 2;
      d := d / 2;
      k := if k > 0 then k - 1 else 0;
    }
    QuotientIs(n, base, res, rem);
    q, r := res, rem % WORD32;
  }

  lemma OneMore(res: nat, d: nat, base: nat)
    ensures (res + d) * base == res * base + base * d
  {
  }

  /** Taking out the high half first keeps everything within 64 bits. */
  lemma HighPart(n: nat, base: nat)
    requires n < WORD64 && 0 < base < WORD32
    ensures var h := n / WORD32 / base;
      h * base <= n / WORD32 && h * base % WORD32 == h * base && h * base * WORD32 <= n && h * WORD32 * base == h * base * WORD32
  {
    Divide(n, WORD32);
    Divide(n / WORD32, base);
    var h := n / WORD32 / base;
    Multiples(h * base, n / WORD32, WORD32);
    assert n / WORD32 < WORD32;
  }

  // ---------- Digits ----------

  /** The character of a digit. */
  function DigitChar(d: nat, upper: bool): char
    requires d < 36
  {
    if d < 10 then '0' + d as char else (if upper then 'A' else 'a') + (d - 10) as char
  }

  const LOWER: string := "0123456789abcdefghijklmnopqrstuvwxyz"
  const UPPER: string := "0123456789ABCDEFGHIJKLMNOPQRSTUVWXYZ"

  /** The digits from 10 on are the letters, small ones or capitals. */
  lemma DigitIs(d: nat)
    requires d < 36
    ensures DigitChar(d, false) == LOWER[d] && DigitChar(d, true) == UPPER[d]
  {
    assert |LOWER| == |UPPER| == 36;
    assert forall i | 0 <= i < 10 :: LOWER[i] == '0' + i as char && UPPER[i] == '0' + i as char;
    assert forall i | 10 <= i < 36 :: LOWER[i] == 'a' + (i - 10) as char;
    assert forall i | 10 <= i < 36 :: UPPER[i] == 'A' + (i - 10) as char;
  }

  /** What a character stands for as a digit, or 16 when it is none. */
  function DigitOf(c: char): (d: nat)
    ensures d <= 16
  {
    if '0' <= c <= '9' then (c - '0') as int
    else if 'a' <= c <= 'f' then (c - 'a') as int + 10
    else if 'A' <= c <= 'F' then (c - 'A') as int + 10
    else 16
  }

  lemma DigitBack(d: nat, upper: bool)
    requires d < 16
    ensures DigitOf(DigitChar(d, upper)) == d
    ensures DigitChar(d, upper) != '-' && DigitChar(d, upper) != 'o' && DigitChar(d, upper) != 'x' && DigitChar(d, upper) != 'X'
    ensures DigitChar(d, upper) == '0' <==> d == 0
    ensures DigitChar(d, upper) != 0 as char
  {
  }

  /** The digits of a number, most significant first; none for 0. */
  function Digits(v: nat, base: nat, upper: bool): string
    requires 2 <= base <= 36
    decreases v
  {
    if v == 0 then [] else
      QuotientLess(v, base);
      Digits(v / base, base, upper) + [DigitChar(v % base, upper)]
  }

  lemma QuotientLess(v: nat, base: nat)
    requires 2 <= base && v > 0
    ensures v / base < v && v % base < base
  {
    Divide(v, base);
    if v / base >= v { Multiples(2, base, v / base); }
  }

  /** What a string of digits stands for. */
  function Value(s: string, base: nat): nat {
    if s == [] then 0 else Value(s[..|s| - 1], base) * base + DigitOf(s[|s| - 1])
  }

  predicate AllDigits(s: string, base: nat) {
    forall c | c in s :: DigitOf(c) < base && DigitOf(c) < 16
  }

  /** Digits stand for the number they were made from. */
  lemma {:induction false} DigitsValue(v: nat, base: nat, upper: bool)
    requires 2 <= base <= 16
    ensures Value(Digits(v, base, upper), base) == v && AllDigits(Digits(v, base, upper), base)
    decreases v
  {
    if v != 0 {
      QuotientLess(v, base);
      Divide(v, base);
      DigitsValue(v / base, base, upper);
      DigitBack(v % base, upper);
      var s, t := Digits(v, base, upper), Digits(v / base, base, upper);
      assert s[..|s| - 1] == t;
    }
  }

  /** The first digit is not 0. */
  lemma {:induction false} FirstDigit(v: nat, base: nat, upper: bool)
    requires 2 <= base <= 16 && v > 0
    ensures var s := Digits(v, base, upper);
      s != [] && s[0] != '0' && s[0] != 'o' && s[0] != '-'
    decreases v
  {
    hide Digits, DigitChar, DigitOf;
    QuotientLess(v, base);
    Divide(v, base);
    DigitsStep(v, base, upper);
    NoDigits(v / base, base, upper);
    DigitBack(v % base, upper);
    var q, d := v / base, v % base;
    if q != 0 { FirstDigit(q, base, upper); }
    assert q == 0 ==> d != 0;
  }

  /** A number below 2^k has at most k digits. */
  lemma {:induction false} DigitCount(v: nat, base: nat, upper: bool, k: nat)
    requires 2 <= base <= 36 && v < Pow2(k)
    ensures |Digits(v, base, upper)| <= k
    decreases k
  {
    if v != 0 {
      HalfAtLeast(v, base);
      DigitCount(v / base, base, upper, k - 1);
    }
  }

  lemma HalfAtLeast(v: nat, base: nat)
    requires 2 <= base
    ensures 2 * (v / base) <= v
  {
    Divide(v, base);
    Multiples(2, base, v / base);
  }

  lemma Pow2Is64()
    ensures Pow2(64) == WORD64
  {
    assert Pow2(8) == 0x100;
    assert Pow2(16) == 0x1_0000;
    assert Pow2(24) == 0x100_0000;
    assert Pow2(32) == 0x1_0000_0000;
    assert Pow2(40) == 0x100_0000_0000;
    assert Pow2(48) == 0x1_0000_0000_0000;
    assert Pow2(56) == 0x100_0000_0000_0000;
  }

  // ---------- llbtoa ----------

  /** The bases that the source prints in: -10 is signed decimal and -16 hexadecimal in capitals. */
  predicate PrintBase(base: int) {
    2 <= base <= 36 || base == -10 || base == -16
  }

  /** The text of a 64-bit pattern. */
  function Printed(value: nat, base: int): string
    requires value < WORD64 && PrintBase(base)
  {
    if value == 0 then "0"
    else if base == -10 && value >= SIGN64 then "-" + Digits(WORD64 - value, 10, false)
    else if base == -10 then Digits(value, 10, false)
    else if base == -16 then Digits(value, 16, true)
    else Digits(value, base, false)
  }

  function Reverse(s: string): (r: string)
    ensures |r| == |s|
  {
    if s == [] then [] else Reverse(s[1..]) + [s[0]]
  }

  lemma {:induction false} ReverseAt(s: string, k: nat)
    requires k < |s|
    ensures Reverse(s)[k] == s[|s| - 1 - k]
  {
    if k < |s| - 1 { ReverseAt(s[1..], k); }
  }

  lemma {:induction false} ReverseSnoc(s: string, c: char)
    ensures Reverse(s + [c]) == [c] + Reverse(s)
  {
    if s == [] {
      assert [c][1..] == [];
    } else {
      ReverseSnoc(s[1..], c);
      assert (s + [c])[1..] == s[1..] + [c];
    }
  }

  /** llbtoa: writes the text, of length n, and the final NUL.  `ret` is the offset of the pointer it
      returns: the start of the buffer for 0 only, and the end of the text for every other value. */
  method Llbtoa(buf: array<char>, value0: nat, base0: int) returns (ret: nat, ghost n: nat)
    requires value0 < WORD64 && PrintBase(base0) && buf.Length > 65
    modifies buf
    ensures n == |Printed(value0, base0)| <= 65
    ensures buf[..n] == Printed(value0, base0) && buf[n] == 0 as char
    ensures buf[n + 1..] == old(buf[..])[n + 1..]
    ensures (ret == 0 <==> value0 == 0) && (value0 != 0 ==> ret == n)
  {
    hide Digits, Reverse, DigitChar;
    if value0 == 0 {
      buf[0] := '0';
      buf[1] := 0 as char;
      ret, n := 0, 1;
    } else {
      var value, base, neg, upper := value0, base0, false, false;
      if base == -10 {
        if value >= SIGN64 { value, neg := (WORD64 - 1 - value + 1) % WORD64, true; }
        base := 10;
      }
      if base == -16 { base, upper := 16, true; }
      var tmp := new char[66];
      NoDigits(value, base, upper);
      var i := PrintDigits(tmp, value, base, upper);
      ghost var digits := tmp[..i];
      if neg {
        tmp[i] := '-';
        ReverseSnoc(digits, '-');
        assert tmp[..i + 1] == digits + ['-'];
        i := i + 1;
      }
      CopyReversed(buf, tmp, i);
      buf[i] := 0 as char;
      ret, n := i, i;
    }
  }

  /** The loop that puts the characters into the caller's buffer, last one first. */
  method CopyReversed(buf: array<char>, tmp: array<char>, n: nat)
    requires buf != tmp && n <= tmp.Length && n < buf.Length
    modifies buf
    ensures buf[..n] == Reverse(tmp[..n]) && buf[n..] == old(buf[..])[n..]
  {
    hide Reverse;
    var i, at := n, 0;
    ghost var r := Reverse(tmp[..n]);
    while i > 0
      invariant 0 <= i <= n && at == n - i
      invariant forall k | 0 <= k < at :: buf[k] == r[k]
      invariant buf[n..] == old(buf[..])[n..]
    {
      i := i - 1;
      ReverseAt(tmp[..n], at);
      buf[at] := tmp[i];
      at := at + 1;
    }
  }

  /** The digits, least significant first. */
  method PrintDigits(tmp: array<char>, value0: nat, base: nat, upper: bool) returns (i: nat)
    requires value0 < WORD64 && 2 <= base <= 36 && tmp.Length == 66
    modifies tmp
    ensures i <= 64 && Reverse(tmp[..i]) == Digits(value0, base, upper)
  {
    hide Digits, Reverse, DigitChar, Pow2;
    var value: nat := value0;
    i := 0;
    Pow2Is64();
    DigitCount(value0, base, upper, 64);
    NoDigits(value, base, upper);
    ghost var all := Digits(value0, base, upper);
    assert tmp[..0] == [];
    while value != 0
      invariant value < WORD64 && i <= 64
      invariant Digits(value, base, upper) + Reverse(tmp[..i]) == all
      decreases value
    {
      NextDigit(value, base, upper, tmp[..i], all);
      ghost var before := tmp[..i];
      var digit;
      value, digit := Div64(value, base);
      var c := DigitChar(digit, upper);
      tmp[i] := c;
      assert tmp[..i + 1] == before + [c];
      i := i + 1;
    }
    NoDigits(value, base, upper);
  }

  /** One more digit goes from the number to the characters printed so far. */
  lemma NextDigit(value: nat, base: nat, upper: bool, t: string, all: string)
    requires 2 <= base <= 36 && value > 0 && Digits(value, base, upper) + Reverse(t) == all
    ensures value / base < value && value % base < 36
    ensures Digits(value / base, base, upper) + Reverse(t + [DigitChar(value % base, upper)]) == all
  {
    hide Digits, Reverse, DigitChar;
    QuotientLess(value, base);
    DigitsStep(value, base, upper);
    var c := DigitChar(value % base, upper);
    ReverseSnoc(t, c);
    Shift(Digits(value / base, base, upper), c, Reverse(t), all);
  }

  lemma NoDigits(v: nat, base: nat, upper: bool)
    requires 2 <= base <= 36
    ensures v == 0 <==> Digits(v, base, upper) == []
    ensures Reverse([]) == []
  {
  }

  lemma DigitsStep(v: nat, base: nat, upper: bool)
    requires 2 <= base <= 36 && v > 0
    ensures v % base < 36 && Digits(v, base, upper) == Digits(v / base, base, upper) + [DigitChar(v % base, upper)]
  {
    QuotientLess(v, base);
  }

  lemma Shift(x: string, c: char, y: string, all: string)
    requires (x + [c]) + y == all
    ensures x + ([c] + y) == all && |y| < |all|
  {
  }

  // ---------- llatob ----------

  datatype Option<T> = None | Some(value: T)

  /** _atob: the value of a string of digits, in 64-bit arithmetic. */
  method Atob(s: string, base: nat) returns (err: bool, val: nat)
    requires base < WORD32
    ensures err <==> s == [] || !AllDigits(s, base)
    ensures !err ==> val == Value(s, base) % WORD64
  {
    hide DigitOf, Value;
    NoValue(base);
    val := 0;
    err := s == [];
    var i := 0;
    assert s[..0] == [];
    while i < |s| && !err
      invariant i <= |s| && (err ==> s == [] || !AllDigits(s, base))
      invariant !err ==> AllDigits(s[..i], base) && val == Value(s[..i], base) % WORD64
      decreases !err, |s| - i
    {
      var digit := DigitOf(s[i]);
      AllDigitsMore(s, i, base);
      if digit == 16 || digit >= base {
        err := true;
      } else {
        NextValue(s, i, base, val);
        val := val * base % WORD64;
        val := (val + digit) % WORD64;
        i := i + 1;
      }
    }
    assert s[..|s|] == s;
  }

  lemma AllDigitsMore(s: string, i: nat, base: nat)
    requires i < |s| && AllDigits(s[..i], base)
    ensures AllDigits(s[..i + 1], base) <==> DigitOf(s[i]) < base && DigitOf(s[i]) < 16
    ensures AllDigits(s, base) ==> DigitOf(s[i]) < base && DigitOf(s[i]) < 16
  {
    assert s[..i + 1] == s[..i] + [s[i]];
    assert s[i] in s && s[i] in s[..i + 1];
  }

  lemma ValueMore(s: string, i: nat, base: nat)
    requires i < |s|
    ensures Value(s[..i + 1], base) == Value(s[..i], base) * base + DigitOf(s[i])
  {
    assert s[..i + 1][..i] == s[..i];
  }

  lemma NoValue(base: nat)
    ensures Value([], base) == 0
  {
  }

  /** One more digit, in 64-bit arithmetic. */
  lemma NextValue(s: string, i: nat, base: nat, val: nat)
    requires i < |s| && val == Value(s[..i], base) % WORD64
    ensures (val * base % WORD64 + DigitOf(s[i])) % WORD64 == Value(s[..i + 1], base) % WORD64
  {
    hide Value, DigitOf;
    ValueMore(s, i, base);
    ModTimes(Value(s[..i], base), base, DigitOf(s[i]));
  }

  lemma ModTimes(v: nat, base: nat, digit: nat)
    ensures (v % WORD64 * base % WORD64 + digit) % WORD64 == (v * base + digit) % WORD64
  {
    var q, r := v / WORD64, v % WORD64;
    Divide(v, WORD64);
    assert v * base == q * base * WORD64 + r * base;
    ModAdd(q * base, r * base);
    Divide(r * base, WORD64);
    ModAdd(r * base / WORD64, r * base % WORD64 + digit);
    ModAdd(q * base, r * base + digit);
  }

  lemma ModAdd(k: nat, x: nat)
    ensures (k * WORD64 + x) % WORD64 == x % WORD64
  {
  }

  /** What llatob makes of a text: 0x and o choose a base, a minus sign the negative of a decimal; a
      negative base always negates. */
  function Parsed(text: string, base0: int): Option<nat> {
    var hex := |text| >= 2 && text[0] == '0' && (text[1] == 'x' || text[1] == 'X');
    var octal := !hex && |text| >= 1 && text[0] == 'o';
    var minus := |text| >= 1 && text[0] == '-';
    var rest := if hex then text[2..] else if octal || minus then text[1..] else text;
    var base1 := if hex then 16 else if octal then 8 else if minus then -10 else if base0 == 0 then 10 else base0;
    var base := if base1 < 0 then -base1 else base1;
    if rest == [] || !AllDigits(rest, base) then None
    else
      var v := Value(rest, base) % WORD64;
      Some(if base1 < 0 then Negative(v) else v)
  }

  /** llatob */
  method Llatob(text: string, base0: int) returns (err: bool, val: nat)
    requires -0x1_0000_0000 < base0 < 0x1_0000_0000
    ensures err <==> Parsed(text, base0) == None
    ensures !err ==> Parsed(text, base0) == Some(val)
  {
    hide AllDigits, Value;
    var base, p, native := base0, text, false;
    if |text| >= 2 && text[0] == '0' && (text[1] == 'x' || text[1] == 'X') {
      base, p := 16, text[2..];
    } else if |text| >= 1 && text[0] == 'o' {
      base, p := 8, text[1..];
    } else if |text| >= 1 && text[0] == '-' {
      base, p := -10, text[1..];
    }
    if base == 0 { base := 10; }
    if base < 0 { base, native := -base, true; }
    err, val := Atob(p, base);
    if !err && native { val := (WORD64 - 1 - val + 1) % WORD64; }
  }

  // ---------- Round trips ----------

  /** The base to parse with what was printed in a base. */
  function BackBase(base: int): int {
    if base == -10 then 10 else if base == -16 then 16 else base
  }

  /** The negative of a 64-bit number. */
  function Negative(v: nat): nat
    requires v < WORD64
  {
    (WORD64 - v) % WORD64
  }

  /** A text without prefix is parsed in the base given. */
  lemma ParsedPlain(s: string, base: int)
    requires base != 0 && s != [] && s[0] != 'o' && s[0] != '-' && (s[0] == '0' ==> |s| == 1)
    requires AllDigits(s, if base < 0 then -base else base)
    ensures var v := Value(s, if base < 0 then -base else base) % WORD64;
      Parsed(s, base) == Some(if base < 0 then Negative(v) else v)
  {
    hide Value, AllDigits;
  }

  /** A text with a minus sign is the negative of a decimal, whatever the base. */
  lemma ParsedMinus(s: string, base: int)
    requires s != [] && AllDigits(s, 10)
    ensures Parsed("-" + s, base) == Some(Negative(Value(s, 10) % WORD64))
  {
    hide Value, AllDigits;
    var t := "-" + s;
    assert t[1..] == s && t[0] == '-';
  }

  /** The text of a number without its sign. */
  function Plain(v: nat, base: nat, upper: bool): string
    requires 2 <= base <= 36
  {
    if v == 0 then "0" else Digits(v, base, upper)
  }

  lemma PlainIs(v: nat, base: nat, upper: bool)
    requires 2 <= base <= 16 && v < WORD64
    ensures var s := Plain(v, base, upper);
      && s != [] && s[0] != 'o' && s[0] != '-' && (s[0] == '0' ==> |s| == 1)
      && AllDigits(s, base) && Value(s, base) == v && Value(s, base) % WORD64 == v
  {
    if v == 0 {
      assert "0"[..0] == [];
    } else {
      DigitsValue(v, base, upper);
      FirstDigit(v, base, upper);
    }
  }

  lemma ParsedDigits(v: nat, base: nat, upper: bool, back: int)
    requires 2 <= base <= 16 && v < WORD64 && (back == base || back + base == 0)
    ensures Parsed(Plain(v, base, upper), back) == Some(if back < 0 then Negative(v) else v)
    ensures base == 10 ==> Parsed("-" + Plain(v, base, upper), back) == Some(Negative(v))
  {
    hide Plain, Value, AllDigits, Parsed;
    PlainIs(v, base, upper);
    ParsedPlain(Plain(v, base, upper), back);
    if base == 10 { ParsedMinus(Plain(v, base, upper), back); }
  }

  /** With the prefix for its base, what was printed in hexadecimal or octal reads back whatever the base given. */
  lemma PrefixTrip(v: nat, base: int, upper: bool)
    requires v < WORD64
    ensures Parsed("0x" + Plain(v, 16, upper), base) == Parsed("0X" + Plain(v, 16, upper), base) == Some(v)
    ensures Parsed("o" + Plain(v, 8, false), base) == Some(v)
  {
    hide Plain, Value, AllDigits;
    PlainIs(v, 16, upper);
    PlainIs(v, 8, false);
    var h, o := Plain(v, 16, upper), Plain(v, 8, false);
    assert ("0x" + h)[2..] == h && ("0X" + h)[2..] == h && ("o" + o)[1..] == o;
  }

  /** What was printed reads back as the same 64-bit value. */
  lemma RoundTrip(v: nat, base: int)
    requires v < WORD64 && (2 <= base <= 16 || base == -10 || base == -16)
    ensures Parsed(Printed(v, base), BackBase(base)) == Some(v)
  {
    hide Digits, Parsed;
    if base == -10 {
      ParsedDigits(v, 10, false, 10);
      if v >= SIGN64 { ParsedDigits(WORD64 - v, 10, false, 10); }
    } else if base == -16 {
      ParsedDigits(v, 16, true, 16);
    } else {
      ParsedDigits(v, base, false, base);
    }
  }

  /** Parsing with the signed base itself negates what has no minus sign: it gives back exactly 0 and
      the negative numbers. */
  lemma SignedBase(v: nat)
    requires v < WORD64
    ensures Parsed(Printed(v, -10), -10) == Some(v) <==> v == 0 || v >= SIGN64
  {
    hide Digits, Parsed;
    ParsedDigits(v, 10, false, -10);
    if v >= SIGN64 { ParsedDigits(WORD64 - v, 10, false, -10); }
  }
}
