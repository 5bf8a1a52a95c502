/**
  printnum of lib/printfmt.c and strtol of lib/string.c: the numeral that one
  prints is the numeral that the other reads.
*/
module Numbers {
  import opened Mmu

  type Text = seq<char>

  function Digit(d: nat): char
    requires d < 16
  {
    "0123456789abcdef"[d]
  }

  function Repeat(c: char, n: int): (r: Text)
    ensures |r| == (if n < 0 then 0 else n) && forall i :: 0 <= i < |r| ==> r[i] == c
  {
    seq(if n < 0 then 0 else n, _ => c)
  }

  /** num / base and num % base: all digits but the last, and the last. */
  function High(num: nat, base: nat): (r: nat)
    requires base >= 2
    ensures num >= base ==> 0 < r < num
  {
    HighSmaller(num, base);
    num / base
  }

  lemma HighSmaller(num: nat, base: nat)
    requires base >= 2
    ensures num >= base ==> 0 < num / base < num
  {
    var q, r := num / base, num % base;
    assert num == base * q + r;
    if q >= 1 { assert base * q >= 2 * q; }
  }

  function Low(num: nat, base: nat): (r: nat)
    requires base >= 2
    ensures r < base
  {
    num % base
  }

  /** val * base + d: one more digit at the end. */
  function Push(val: int, base: nat, d: nat): int { val * base + d }

  lemma PushHighLow(num: nat, base: nat)
    requires base >= 2
    ensures Push(High(num, base), base, Low(num, base)) == num
  {
  }

  /** The characters that printnum puts out. */
  function Printnum(num: nat, base: nat, width: int, padc: char): Text
    requires 2 <= base <= 16
    decreases num
  {
    if num >= base then Printnum(High(num, base), base, width - 1, padc) + [Digit(Low(num, base))]
    else Repeat(padc, width - 1) + [Digit(num)]
  }

  /** The positional numeral, most significant digit first, without leading zeros. */
  function Numeral(num: nat, base: nat): Text
    requires 2 <= base <= 16
    decreases num
  {
    if num < base then [Digit(num)] else Numeral(High(num, base), base) + [Digit(Low(num, base))]
  }

  /** printnum pads the numeral on the left to the width, and never cuts it. */
  lemma {:induction false} PrintnumIsPaddedNumeral(num: nat, base: nat, width: int, padc: char)
    requires 2 <= base <= 16
    ensures Printnum(num, base, width, padc) == Repeat(padc, width - |Numeral(num, base)|) + Numeral(num, base)
    decreases num
  {
    hide High, Low, Digit;
    if num >= base {
      PrintnumIsPaddedNumeral(High(num, base), base, width - 1, padc);
      var n, d := Numeral(High(num, base), base), Digit(Low(num, base));
      assert Repeat(padc, width - 1 - |n|) + n + [d] == Repeat(padc, width - 1 - |n|) + (n + [d]);
    }
  }

  // ------------------------------------------------------------------- strtol

  /** The value of a digit character, as strtol reads it. */
  function DigitOf(c: char): Option<nat> {
    if '0' <= c <= '9' then Some((c - '0') as nat)
    else if 'a' <= c <= 'z' then Some((c - 'a') as nat + 10)
    else if 'A' <= c <= 'Z' then Some((c - 'A') as nat + 10)
    else None
  }

  /** s[i] of a NUL-terminated string. */
  function At(s: Text, i: nat): char { if i < |s| then s[i] else '\0' }

  predicate Blank(c: char) { c == ' ' || c == '\t' }

  predicate IsDigit(c: char, base: nat) { DigitOf(c).Some? && DigitOf(c).value < base }

  /** The first position from i on that is not blank. */
  function SkipBlanks(s: Text, i: nat): (j: nat)
    requires i <= |s|
    ensures i <= j <= |s|
    decreases |s| - i
  {
    if i < |s| && Blank(s[i]) then SkipBlanks(s, i + 1) else i
  }

  /** The digit loop of strtol from position i. */
  function ReadDigits(s: Text, i: nat, base: nat, val: int): (int, nat)
    requires i <= |s|
    decreases |s| - i
  {
    if i < |s| && IsDigit(s[i], base) then ReadDigits(s, i + 1, base, Int32(Push(val, base, DigitOf(s[i]).value))) else (val, i)
  }

  /** Position after an optional sign, and whether it is a minus. */
  function ReadSign(s: Text, i: nat): (nat, bool) {
    if At(s, i) == '+' then (i + 1, false) else if At(s, i) == '-' then (i + 1, true) else (i, false)
  }

  /** Position after an optional prefix, and the base to use. */
  function ReadPrefix(s: Text, i: nat, base: nat): (nat, nat) {
    if (base == 0 || base == 16) && At(s, i) == '0' && At(s, i + 1) == 'x' then (i + 2, 16)
    else if base == 0 && At(s, i) == '0' then (i + 1, 8)
    else if base == 0 then (i, 10)
    else (i, base)
  }

  /** strtol: the value, and the position of the first character not consumed. */
  function Strtol(s: Text, base: nat): (int, nat) {
    var (i, neg) := ReadSign(s, SkipBlanks(s, 0));
    var (j, b) := ReadPrefix(s, i, base);
    var (val, k) := ReadDigits(s, j, b, 0);
    (if neg then Int32(-val) else val, k)
  }

  lemma NulIsNoDigit()
    ensures DigitOf('\0') == None
  {
  }

  /** strtol as it runs. */
  method StrtolLoop(s: Text, base0: nat) returns (r: int, end: nat)
    requires '\0' !in s
    ensures (r, end) == Strtol(s, base0)
  {
    hide Push, Int32, DigitOf;
    var neg, val, base, i := false, 0, base0, 0;
    while Blank(At(s, i))
      invariant 0 <= i <= |s| && SkipBlanks(s, i) == SkipBlanks(s, 0)
      decreases |s| - i
    {
      i := i + 1;
    }
    if At(s, i) == '+' {
      i := i + 1;
    } else if At(s, i) == '-' {
      i, neg := i + 1, true;
    }
    if (base == 0 || base == 16) && At(s, i) == '0' && At(s, i + 1) == 'x' {
      i, base := i + 2, 16;
    } else if base == 0 && At(s, i) == '0' {
      i, base := i + 1, 8;
    } else if base == 0 {
      base := 10;
    }
    ghost var start := i;
    while true
      invariant start <= i <= |s| && ReadDigits(s, i, base, val) == ReadDigits(s, start, base, 0)
      decreases |s| - i
    {
      NulIsNoDigit();
      var dig := DigitOf(At(s, i));
      if dig == None {
        break;
      }
      if dig.value >= base {
        break;
      }
      i, val := i + 1, Int32(Push(val, base, dig.value));
    }
    return if neg then Int32(-val) else val, i;
  }

  // ---------------------------------------------------------------- round trip

  predicate AllDigits(t: Text, base: nat) { forall i :: 0 <= i < |t| ==> IsDigit(t[i], base) }

  /** The number that digits t denote, read on from val. */
  function Value(t: Text, base: nat, val: nat): nat
    requires AllDigits(t, base)
    decreases |t|
  {
    if t == [] then val
    else
      var high := Value(t[..|t| - 1], base, val);
      PushNat(high, base, DigitOf(t[|t| - 1]).value);
      Push(high, base, DigitOf(t[|t| - 1]).value)
  }

  lemma PushNat(val: nat, base: nat, d: nat)
    ensures Push(val, base, d) >= 0
  {
  }

  lemma DigitIsDigit(d: nat, base: nat)
    requires d < base <= 16
    ensures DigitOf(Digit(d)) == Some(d) && IsDigit(Digit(d), base)
    ensures !Blank(Digit(d)) && Digit(d) != '+' && Digit(d) != '-' && Digit(d) != 'x'
    ensures '0' <= Digit(d) <= '9' || 'a' <= Digit(d) <= 'f'
  {
  }

  /** The numeral denotes the number, and has no superfluous zero. */
  lemma {:induction false} NumeralCanonical(num: nat, base: nat)
    requires 2 <= base <= 16
    ensures Numeral(num, base) != [] && AllDigits(Numeral(num, base), base) && Value(Numeral(num, base), base, 0) == num
    ensures num > 0 ==> Numeral(num, base)[0] != '0'
    ensures forall i :: 0 <= i < |Numeral(num, base)| ==> '0' <= Numeral(num, base)[i] <= '9' || 'a' <= Numeral(num, base)[i] <= 'f'
    decreases num
  {
    hide High, Low, Digit, DigitOf, Push;
    if num < base {
      DigitIsDigit(num, base);
      var t := Numeral(num, base);
      assert t[..0] == [] && t[0] == Digit(num);
      PushZero(base, num);
      assert Value(t[..0], base, 0) == 0;
      if num > 0 { NotZero(num); }
    } else {
      NumeralCanonical(High(num, base), base);
      DigitIsDigit(Low(num, base), base);
      PushHighLow(num, base);
      var n, d := Numeral(High(num, base), base), Digit(Low(num, base));
      var t := n + [d];
      assert t[..|n|] == n && t[|n|] == d;
    }
  }

  lemma PushZero(base: nat, d: nat)
    ensures Push(0, base, d) == d
  {
  }

  lemma NotZero(d: nat)
    requires 0 < d < 16
    ensures Digit(d) != '0'
  {
  }

  /** Wrapping before a digit is pushed or after makes no difference. */
  lemma PushWraps(val: int, base: nat, d: nat)
    ensures Int32(Push(Int32(val), base, d)) == Int32(Push(val, base, d))
  {
    var m := val / 0x1_0000_0000 + if val % 0x1_0000_0000 < 0x8000_0000 then 0 else 1;
    assert val == Int32(val) + 0x1_0000_0000 * m;
    assert Push(val, base, d) == Push(Int32(val), base, d) + 0x1_0000_0000 * (m * base) by {
      Distribute(Int32(val), m, base);
    }
    Int32Shift(Push(Int32(val), base, d), m * base);
  }

  lemma Distribute(x: int, m: int, base: int)
    ensures (x + 0x1_0000_0000 * m) * base == x * base + 0x1_0000_0000 * (m * base)
  {
  }

  /** The rest of a string does not go on with a digit. */
  predicate DigitsEnd(rest: Text, base: nat) { rest != [] ==> !IsDigit(rest[0], base) }

  /** The digit loop computes the value, wrapped to 32 bits as long arithmetic is, and stops behind the digits. */
  lemma {:induction false} ReadDigitsValue(pre: Text, t: Text, rest: Text, base: nat, k: nat)
    requires AllDigits(t, base) && k <= |t| && DigitsEnd(rest, base)
    ensures ReadDigits(pre + t + rest, |pre| + k, base, Int32(Value(t[..k], base, 0))) == (Int32(Value(t, base, 0)), |pre + t|)
    decreases |t| - k
  {
    hide Push, DigitOf, Int32;
    var s := pre + t + rest;
    if k < |t| {
      assert s[|pre| + k] == t[k];
      assert t[..k + 1][..k] == t[..k];
      assert Value(t[..k + 1], base, 0) == Push(Value(t[..k], base, 0), base, DigitOf(t[k]).value);
      PushWraps(Value(t[..k], base, 0), base, DigitOf(t[k]).value);
      ReadDigitsValue(pre, t, rest, base, k + 1);
    } else {
      assert t[..k] == t;
      assert rest != [] ==> s[|pre| + k] == rest[0];
    }
  }

  lemma {:induction false} SkipAllBlanks(pre: Text, n: Text, k: nat)
    requires k <= |pre| && (forall i :: 0 <= i < |pre| ==> Blank(pre[i])) && n != [] && !Blank(n[0])
    ensures SkipBlanks(pre + n, k) == |pre|
    decreases |pre| - k
  {
    if k < |pre| {
      assert (pre + n)[k] == pre[k];
      SkipAllBlanks(pre, n, k + 1);
    } else {
      assert (pre + n)[k] == n[0];
    }
  }

  lemma {:induction false} LeadingZeros(k: nat, t: Text, base: nat)
    requires AllDigits(t, base) && base >= 1
    ensures AllDigits(Repeat('0', k) + t, base) && Value(Repeat('0', k) + t, base, 0) == Value(t, base, 0)
    decreases |t|, k
  {
    hide Push;
    var z := Repeat('0', k);
    assert forall i :: 0 <= i < |z + t| ==> IsDigit((z + t)[i], base) by {
      forall i | 0 <= i < |z + t| ensures IsDigit((z + t)[i], base) {
        if i >= k { assert (z + t)[i] == t[i - k]; }
      }
    }
    if t == [] {
      assert z + t == z;
      if k > 0 {
        LeadingZeros(k - 1, t, base);
        assert z[..k - 1] == Repeat('0', k - 1) + [];
        PushZero(base, 0);
      }
    } else {
      LeadingZeros(k, t[..|t| - 1], base);
      assert (z + t)[..|z + t| - 1] == z + t[..|t| - 1];
    }
  }

  lemma ReadFrom(pre: Text, t: Text, base: nat)
    requires AllDigits(t, base)
    ensures ReadDigits(pre + t, |pre|, base, 0) == (Int32(Value(t, base, 0)), |pre + t|)
  {
    hide ReadDigits;
    assert pre + t + [] == pre + t;
    ReadAll(pre, t, [], base);
  }

  lemma ReadAll(pre: Text, t: Text, rest: Text, base: nat)
    requires AllDigits(t, base) && DigitsEnd(rest, base)
    ensures ReadDigits(pre + t + rest, |pre|, base, 0) == (Int32(Value(t, base, 0)), |pre + t|)
  {
    hide ReadDigits;
    assert t[..0] == [] && Int32(0) == 0;
    ReadDigitsValue(pre, t, rest, base, 0);
  }

  /** After optional blanks or zeros and the numeral, strtol has read exactly the number. */
  lemma ReadPadded(pre: Text, num: nat, base: nat, width: int, padc: char)
    requires 2 <= base <= 16 && (padc == ' ' || padc == '0')
    ensures var t := Printnum(num, base, width, padc);
      var b := if padc == ' ' then |t| - |Numeral(num, base)| else 0;
      && 0 <= b <= |t| && t != [] && (b < |t| && IsDigit(t[b], base)) && (forall i :: 0 <= i < b ==> t[i] == ' ')
      && (b + 1 < |t| ==> t[b + 1] != 'x')
      && ReadDigits(pre + t, |pre| + b, base, 0) == (Int32(num), |pre + t|)
  {
    hide Printnum, Numeral, ReadDigits, Value, DigitOf;
    PrintnumIsPaddedNumeral(num, base, width, padc);
    NumeralCanonical(num, base);
    var n := Numeral(num, base);
    var pad := Repeat(padc, width - |n|);
    var t := pad + n;
    if padc == ' ' {
      assert pre + t == (pre + pad) + n;
      ReadFrom(pre + pad, n, base);
      assert t[|pad|] == n[0];
      if |n| > 1 { assert t[|pad| + 1] == n[1] && IsDigit(n[1], base); DigitFacts(n[1], base); }
    } else {
      LeadingZeros(|pad|, n, base);
      ReadFrom(pre, t, base);
      assert IsDigit(t[0], base);
      if |t| > 1 { assert IsDigit(t[1], base); DigitFacts(t[1], base); }
    }
  }

  lemma DigitFacts(c: char, base: nat)
    requires IsDigit(c, base) && base <= 16
    ensures !Blank(c) && c != '+' && c != '-' && c != 'x'
  {
  }

  /**
    strtol inverts printnum, and consumes all of its output, for every width and either
    padding: it reads the number itself exactly when that is below 2^31, and its
    two's-complement image otherwise.
  */
  lemma StrtolInvertsPrintnum(num: nat, base: nat, width: int, padc: char)
    requires 2 <= base <= 16 && (padc == ' ' || padc == '0')
    ensures Strtol(Printnum(num, base, width, padc), base) == (Int32(num), |Printnum(num, base, width, padc)|)
    ensures Strtol(Printnum(num, base, width, padc), base).0 == num <==> num < 0x8000_0000
  {
    hide Printnum, Numeral, ReadDigits, DigitOf, SkipBlanks, Int32;
    var t := Printnum(num, base, width, padc);
    ReadPadded([], num, base, width, padc);
    assert [] + t == t;
    var b := if padc == ' ' then |t| - |Numeral(num, base)| else 0;
    DigitFacts(t[b], base);
    SkipAllBlanks(t[..b], t[b..], 0);
    assert t[..b] + t[b..] == t;
    assert ReadSign(t, b) == (b, false);
    assert ReadPrefix(t, b, base) == (b, base);
    Int32Fits(num);
  }

  /**
    With a minus sign in front, as %d prints a negative number, strtol still inverts
    printnum exactly when no blank padding comes between the sign and the digits.
  */
  lemma StrtolInvertsNegativeIff(num: nat, base: nat, width: int, padc: char)
    requires 2 <= base <= 16 && (padc == ' ' || padc == '0')
    ensures var t := "-" + Printnum(num, base, width, padc);
      Strtol(t, base) == (Int32(0 - num as int), |t|) <==> (padc == '0' || width <= |Numeral(num, base)|)
  {
    hide Printnum, Numeral, DigitOf, Int32;
    var p := Printnum(num, base, width, padc);
    var t := "-" + p;
    ReadPadded("-", num, base, width, padc);
    PrintnumIsPaddedNumeral(num, base, width, padc);
    var b := if padc == ' ' then |p| - |Numeral(num, base)| else 0;
    DigitFacts(p[b], base);
    assert SkipBlanks(t, 0) == 0;
    assert At(t, 1) == p[0];
    if |p| > 1 { assert At(t, 2) == p[1]; }
    if b == 0 {
      assert ReadPrefix(t, 1, base) == (1, base);
      NegateWraps(num);
    } else {
      assert p[0] == ' ' && !IsDigit(' ', base) by { BlankIsNoDigit(base); }
      assert ReadDigits(t, 1, base, 0) == (0, 1);
    }
  }

  lemma NegateWraps(num: int)
    ensures Int32(-Int32(num)) == Int32(0 - num)
  {
  }

  lemma BlankIsNoDigit(base: nat)
    ensures !IsDigit(' ', base)
  {
  }

  // ------------------------------------------------------------ strtol in general

  /** The digit characters, in numbers: 0 to 9, and the letters of either case from 10 on. */
  lemma DigitCharacters(c: char)
    ensures DigitOf(c) ==
      if 48 <= c as int <= 57 then Some(c as int - 48)
      else if 97 <= c as int <= 122 then Some(c as int - 87)
      else if 65 <= c as int <= 90 then Some(c as int - 55)
      else None
  {
  }

  /** What may stand before the digits: blanks and tabs, then at most one sign. */
  predicate Lead(blanks: Text, sign: Text) {
    (forall i :: 0 <= i < |blanks| ==> blanks[i] == ' ' || blanks[i] == '\t') && (sign == "" || sign == "+" || sign == "-")
  }

  function WithSign(sign: Text, v: nat): int { if sign == "-" then 0 - v else v }

  /** Blanks and sign are skipped. */
  lemma LeadRead(blanks: Text, sign: Text, body: Text)
    requires Lead(blanks, sign) && body != [] && !Blank(body[0]) && body[0] != '+' && body[0] != '-'
    ensures var s := blanks + sign + body;
      SkipBlanks(s, 0) == |blanks| && ReadSign(s, |blanks|) == (|blanks + sign|, sign == "-")
  {
    hide SkipBlanks;
    var s := blanks + sign + body;
    assert s == blanks + (sign + body);
    assert (sign + body)[0] == if sign == "" then body[0] else sign[0];
    SkipAllBlanks(blanks, sign + body, 0);
    assert s[|blanks|] == (sign + body)[0];
  }

  lemma DigitIsNoLead(c: char, base: nat)
    requires IsDigit(c, base)
    ensures !Blank(c) && c != '+' && c != '-'
  {
  }

  /**
    strtol with an explicit base: blanks and tabs, an optional sign, then as many digits of
    the base as there are. The value is that of the digits, with the sign, in 32-bit
    arithmetic; the end is just behind them. (With base 16 a "0x" is a prefix, not a digit
    and a rest.)
  */
  lemma StrtolReads(blanks: Text, sign: Text, t: Text, rest: Text, base: nat)
    requires Lead(blanks, sign) && t != [] && AllDigits(t, base) && DigitsEnd(rest, base) && base != 0
    requires base == 16 && t == "0" ==> rest == [] || rest[0] != 'x'
    ensures Strtol(blanks + sign + t + rest, base) ==
      (Int32(WithSign(sign, Value(t, base, 0))), |blanks + sign + t|)
  {
    hide ReadDigits, Value, Int32, DigitOf, SkipBlanks;
    var s := blanks + sign + t + rest;
    assert s == blanks + sign + (t + rest) && (t + rest)[0] == t[0];
    DigitIsNoLead(t[0], base);
    LeadRead(blanks, sign, t + rest);
    var i := |blanks + sign|;
    assert At(s, i) == t[0] && (At(s, i + 1) == if |t| > 1 then t[1] else if rest != [] then rest[0] else '\0');
    if base == 16 && t[0] == '0' && |t| > 1 { assert IsDigit(t[1], 16); DigitFacts(t[1], 16); }
    assert ReadPrefix(s, i, base) == (i, base) by { if t[0] == '0' && |t| == 1 { assert t == "0"; } }
    ReadAll(blanks + sign, t, rest, base);
    NegateWraps(Value(t, base, 0));
  }

  /** The prefix 0x: base 16 with base argument 16, and also with 0. */
  lemma StrtolReadsHex(blanks: Text, sign: Text, t: Text, rest: Text, base: nat)
    requires Lead(blanks, sign) && AllDigits(t, 16) && DigitsEnd(rest, 16) && (base == 0 || base == 16)
    ensures Strtol(blanks + sign + "0x" + t + rest, base) ==
      (Int32(WithSign(sign, Value(t, 16, 0))), |blanks + sign + "0x" + t|)
  {
    hide ReadDigits, Value, Int32, DigitOf, SkipBlanks;
    var s := blanks + sign + "0x" + t + rest;
    assert s == blanks + sign + ("0x" + t + rest) && ("0x" + t + rest)[0] == '0';
    LeadRead(blanks, sign, "0x" + t + rest);
    var i := |blanks + sign|;
    assert At(s, i) == '0' && At(s, i + 1) == 'x';
    ReadAll(blanks + sign + "0x", t, rest, 16);
    NegateWraps(Value(t, 16, 0));
  }

  /** With base argument 0: a leading 0 makes the rest octal, anything else is decimal. */
  lemma StrtolGuesses(blanks: Text, sign: Text, t: Text, rest: Text)
    requires Lead(blanks, sign) && t != []
    ensures t[0] == '0' && AllDigits(t, 8) && DigitsEnd(rest, 8) && (t == "0" ==> rest == [] || rest[0] != 'x') ==>
      Strtol(blanks + sign + t + rest, 0) ==
        (Int32(WithSign(sign, Value(t[1..], 8, 0))), |blanks + sign + t|)
    ensures t[0] != '0' && AllDigits(t, 10) && DigitsEnd(rest, 10) ==>
      Strtol(blanks + sign + t + rest, 0) ==
        (Int32(WithSign(sign, Value(t, 10, 0))), |blanks + sign + t|)
  {
    hide ReadDigits, Value, Int32, DigitOf, SkipBlanks;
    var s := blanks + sign + t + rest;
    assert s == blanks + sign + (t + rest) && (t + rest)[0] == t[0];
    var i := |blanks + sign|;
    assert At(s, i) == t[0] && (At(s, i + 1) == if |t| > 1 then t[1] else if rest != [] then rest[0] else '\0');
    if t[0] == '0' && AllDigits(t, 8) && DigitsEnd(rest, 8) && (t == "0" ==> rest == [] || rest[0] != 'x') {
      LeadRead(blanks, sign, t + rest);
      if |t| > 1 { assert IsDigit(t[1], 8); DigitFacts(t[1], 8); } else { assert t == "0"; }
      assert ReadPrefix(s, i, 0) == (i + 1, 8);
      assert s == (blanks + sign + "0") + t[1..] + rest && t == "0" + t[1..];
      ReadAll(blanks + sign + "0", t[1..], rest, 8);
      NegateWraps(Value(t[1..], 8, 0));
    } else if t[0] != '0' && AllDigits(t, 10) && DigitsEnd(rest, 10) {
      DigitIsNoLead(t[0], 10);
      LeadRead(blanks, sign, t + rest);
      assert ReadPrefix(s, i, 0) == (i, 10);
      ReadAll(blanks + sign, t, rest, 10);
      NegateWraps(Value(t, 10, 0));
    }
  }
}
