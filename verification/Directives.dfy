/**
  What a directive of a format prints, from its flag, width and precision to the
  characters that come out, wherever in a format it stands.
*/
module Directives {
  import opened Mmu
  import opened Numbers
  import opened PrintFmt

  /** flag is "", "0", "-" or "#"; a width or precision of 0 is not written; ls counts the l's. */
  datatype Directive = Directive(flag: Text, width: nat, prec: nat, ls: nat, c: char)

  predicate Sane(d: Directive) {
    && (d.flag == "" || d.flag == "0" || d.flag == "-" || d.flag == "#")
    && (d.c == 'd' || d.c == 'u' || d.c == 'o' || d.c == 'x' || d.c == 'p' || d.c == 'c' || d.c == 's' || d.c == 'e' || d.c == '%')
  }

  function NumberText(n: nat): Text { if n == 0 then "" else Numeral(n, 10) }

  /** The directive as it is written, in five parts after the percent sign. */
  function Written(d: Directive): Text {
    "%" + d.flag + NumberText(d.width) + (if d.prec == 0 then "" else "." + Numeral(d.prec, 10)) + Repeat('l', d.ls) + [d.c]
  }

  /** The text t stands at position p of the format. */
  predicate Here(fmt: Text, p: nat, t: Text) { p + |t| <= |fmt| && fmt[p..p + |t|] == t }

  lemma HereParts(fmt: Text, p: nat, a: Text, b: Text)
    requires Here(fmt, p, a + b)
    ensures Here(fmt, p, a) && Here(fmt, p + |a|, b)
  {
    assert fmt[p..p + |a|] == (a + b)[..|a|] == a;
    assert fmt[p + |a|..p + |a| + |b|] == (a + b)[|a|..] == b;
  }

  lemma HereAt(fmt: Text, p: nat, t: Text, k: nat)
    requires Here(fmt, p, t) && k < |t|
    ensures fmt[p + k] == t[k]
  {
    assert fmt[p..p + |t|][k] == fmt[p + k];
  }

  // ----------------------------------------------------------- reading a directive

  lemma DecimalDigit(c: char)
    ensures Decimal(c) <==> IsDigit(c, 10)
    ensures Decimal(c) ==> DigitOf(c) == Some((c - '0') as nat)
    ensures Decimal(c) && c != '0' ==> Nonzero(c) && !Flag(c)
  {
  }

  /** Position q is past the digits of a number. */
  predicate NumberEnds(fmt: Text, q: nat) { q < |fmt| ==> !Decimal(fmt[q]) }

  lemma {:induction false} DigitsRead(fmt: Text, i: nat, t: Text, k: nat)
    requires Here(fmt, i, t) && AllDigits(t, 10) && k <= |t| && NumberEnds(fmt, i + |t|)
    ensures Digits(fmt, i + k, Value(t[..k], 10, 0)) == (Value(t, 10, 0), i + |t|)
    decreases |t| - k
  {
    hide DigitOf, Push, Decimal;
    if k < |t| {
      HereAt(fmt, i, t, k);
      DecimalDigit(t[k]);
      assert t[..k + 1][..k] == t[..k];
      PushTen(Value(t[..k], 10, 0), DigitOf(t[k]).value);
      DigitsRead(fmt, i, t, k + 1);
    } else {
      assert t[..k] == t;
    }
  }

  lemma PushTen(v: nat, d: nat)
    ensures Push(v, 10, d) == v * 10 + d
  {
  }

  /** A number in a directive sets the width, or else the precision. */
  lemma NumberRead(fmt: Text, args: seq<Arg>, p: nat, i: nat, k: nat, e: Esc, n: nat)
    requires p < i && n > 0 && Here(fmt, i, Numeral(n, 10)) && NumberEnds(fmt, i + |Numeral(n, 10)|)
    ensures Escape(fmt, args, p, i, k, e) == Escape(fmt, args, p, i + |Numeral(n, 10)|, k, ProcessPrecision(e, n))
  {
    hide Numeral, ProcessPrecision, Digits, DigitOf, Push, Conversion;
    var t := Numeral(n, 10);
    NumeralCanonical(n, 10);
    HereAt(fmt, i, t, 0);
    DecimalDigit(t[0]);
    assert t[..1][..0] == [] && Value([], 10, 0) == 0;
    assert Value(t[..1], 10, 0) == Push(0, 10, DigitOf(t[0]).value);
    PushTen(0, DigitOf(t[0]).value);
    DigitsRead(fmt, i, t, 1);
  }

  /** A flag character, where it stands. */
  lemma FlagRead(fmt: Text, args: seq<Arg>, p: nat, i: nat, k: nat, e: Esc)
    requires p < i < |fmt| && Flag(fmt[i])
    ensures Escape(fmt, args, p, i, k, e) == Escape(fmt, args, p, i + 1, k, ApplyFlag(fmt[i], e))
  {
  }

  lemma LongFlag(e: Esc)
    ensures Flag('l') && ApplyFlag('l', e) == e.(lflag := e.lflag + 1)
  {
  }

  lemma {:induction false} LongsRead(fmt: Text, args: seq<Arg>, p: nat, i: nat, k: nat, e: Esc, n: nat)
    requires p < i && Here(fmt, i, Repeat('l', n))
    ensures Escape(fmt, args, p, i, k, e) == Escape(fmt, args, p, i + n, k, e.(lflag := e.lflag + n))
    decreases n
  {
    hide Escape, ApplyFlag, Flag;
    if n > 0 {
      HereAt(fmt, i, Repeat('l', n), 0);
      assert Repeat('l', n) == ['l'] + Repeat('l', n - 1);
      HereParts(fmt, i, ['l'], Repeat('l', n - 1));
      LongFlag(e);
      FlagRead(fmt, args, p, i, k, e);
      LongsRead(fmt, args, p, i + 1, k, e.(lflag := e.lflag + 1), n - 1);
    }
  }

  /** The rest of a directive, from the precision on. */
  function Rest(d: Directive): Text { (if d.prec == 0 then "" else "." + Numeral(d.prec, 10)) + Longs(d) }

  function Longs(d: Directive): Text { Repeat('l', d.ls) + [d.c] }

  lemma NotANumber(d: Directive)
    requires Sane(d)
    ensures Longs(d) != [] && !Decimal(Longs(d)[0]) && Rest(d) != [] && !Decimal(Rest(d)[0])
  {
    hide Numeral;
  }

  /** What the fields of an escape are once the directive has been read. */
  function Fields(d: Directive): Esc {
    Esc(PadOf(d),
        if d.width > 0 then d.width else if d.prec > 0 then 0 else -1,
        if d.prec > 0 then d.prec else -1,
        d.ls,
        d.flag == "#")
  }

  /** Zeros with the flag 0, minus signs with the flag -, blanks otherwise. */
  function PadOf(d: Directive): char { if d.flag == "0" then '0' else if d.flag == "-" then '-' else ' ' }

  lemma FlagPart(fmt: Text, args: seq<Arg>, p: nat, k: nat, d: Directive)
    requires Sane(d) && p < |fmt| && Here(fmt, p + 1, d.flag)
    ensures Escape(fmt, args, p, p + 1, k, PLAIN) == Escape(fmt, args, p, p + 1 + |d.flag|, k, Esc(PadOf(d), -1, -1, 0, d.flag == "#"))
  {
    hide Escape;
    if d.flag != "" {
      HereAt(fmt, p + 1, d.flag, 0);
      FlagRead(fmt, args, p, p + 1, k, PLAIN);
    }
  }

  lemma WidthPart(fmt: Text, args: seq<Arg>, p: nat, i: nat, k: nat, e: Esc, d: Directive)
    requires Sane(d) && p < i && Here(fmt, i, NumberText(d.width) + Rest(d)) && e.width == -1 && e.prec == -1
    ensures Escape(fmt, args, p, i, k, e) ==
      Escape(fmt, args, p, i + |NumberText(d.width)|, k, if d.width > 0 then e.(width := d.width) else e)
    ensures Here(fmt, i + |NumberText(d.width)|, Rest(d))
  {
    hide Escape, Rest, Numeral;
    HereParts(fmt, i, NumberText(d.width), Rest(d));
    if d.width > 0 {
      NotANumber(d);
      HereAt(fmt, i + |NumberText(d.width)|, Rest(d), 0);
      NumberRead(fmt, args, p, i, k, e, d.width);
    }
  }

  lemma PrecPart(fmt: Text, args: seq<Arg>, p: nat, i: nat, k: nat, e: Esc, d: Directive)
    requires Sane(d) && p < i && Here(fmt, i, Rest(d)) && e.prec == -1
    ensures Escape(fmt, args, p, i, k, e) ==
      Escape(fmt, args, p, i + |Rest(d)| - |Longs(d)|, k,
        if d.prec > 0 then e.(width := if e.width < 0 then 0 else e.width, prec := d.prec) else e)
    ensures |Rest(d)| >= |Longs(d)| && Here(fmt, i + |Rest(d)| - |Longs(d)|, Longs(d))
  {
    hide Escape, Longs, Numeral;
    if d.prec > 0 {
      var n := Numeral(d.prec, 10);
      assert Rest(d) == "." + (n + Longs(d)) by { assert ("." + n) + Longs(d) == "." + (n + Longs(d)); }
      HereParts(fmt, i, ".", n + Longs(d));
      HereParts(fmt, i + 1, n, Longs(d));
      HereAt(fmt, i, ".", 0);
      FlagRead(fmt, args, p, i, k, e);
      NotANumber(d);
      HereAt(fmt, i + 1 + |n|, Longs(d), 0);
      NumberRead(fmt, args, p, i + 1, k, ApplyFlag('.', e), d.prec);
    } else {
      assert Rest(d) == Longs(d);
    }
  }

  lemma ConversionPart(fmt: Text, args: seq<Arg>, p: nat, i: nat, k: nat, e: Esc, d: Directive)
    requires Sane(d) && p < i && Here(fmt, i, Longs(d)) && e.lflag == 0
    ensures Escape(fmt, args, p, i, k, e) ==
      Done(Conversion(d.c, e.(lflag := d.ls), args, k), i + d.ls + 1, if d.c == '%' then k else k + 1)
  {
    hide Escape, Conversion, Here;
    HereParts(fmt, i, Repeat('l', d.ls), [d.c]);
    LongsRead(fmt, args, p, i, k, e, d.ls);
    HereBound(fmt, i + d.ls, [d.c]);
    ConversionRead(fmt, args, p, i + d.ls, k, e.(lflag := d.ls));
  }

  lemma ConversionRead(fmt: Text, args: seq<Arg>, p: nat, i: nat, k: nat, e: Esc)
    requires p < i < |fmt| && Converts(fmt[i])
    ensures Escape(fmt, args, p, i, k, e) == Done(Conversion(fmt[i], e, args, k), i + 1, if fmt[i] == '%' then k else k + 1)
  {
    hide Conversion, Digits, ApplyFlag, ProcessPrecision;
    assert !Flag(fmt[i]) && !Nonzero(fmt[i]) && fmt[i] != '*';
  }

  /** A directive, wherever it stands in a format, is read as what it says. */
  lemma DirectiveRead(fmt: Text, args: seq<Arg>, p: nat, k: nat, d: Directive)
    requires Sane(d) && Here(fmt, p, Written(d))
    ensures p < |fmt| && fmt[p] == '%'
    ensures Escape(fmt, args, p, p + 1, k, PLAIN) ==
      Done(Conversion(d.c, Fields(d), args, k), p + |Written(d)|, if d.c == '%' then k else k + 1)
  {
    hide Escape, Conversion, Written, Rest, Longs, NumberText, Here, PadOf;
    var w, r := NumberText(d.width), Rest(d);
    Regroup(d);
    HereParts(fmt, p, "%", d.flag + (w + r));
    HereBound(fmt, p, "%");
    HereParts(fmt, p + 1, d.flag, w + r);
    FlagPart(fmt, args, p, k, d);
    var i, e := p + 1 + |d.flag|, Esc(PadOf(d), -1, -1, 0, d.flag == "#");
    WidthPart(fmt, args, p, i, k, e, d);
    var i2, e2 := i + |w|, if d.width > 0 then e.(width := d.width) else e;
    PrecPart(fmt, args, p, i2, k, e2, d);
    var i3, e3 := i2 + |r| - |Longs(d)|, if d.prec > 0 then e2.(width := if e2.width < 0 then 0 else e2.width, prec := d.prec) else e2;
    ConversionPart(fmt, args, p, i3, k, e3, d);
    assert e3.(lflag := d.ls) == Fields(d);
  }

  lemma HereBound(fmt: Text, p: nat, t: Text)
    requires Here(fmt, p, t) && t != []
    ensures p < |fmt| && fmt[p] == t[0]
  {
    HereAt(fmt, p, t, 0);
  }

  lemma Regroup(d: Directive)
    ensures Written(d) == "%" + (d.flag + (NumberText(d.width) + Rest(d)))
    ensures |Written(d)| == 1 + |d.flag| + |NumberText(d.width)| + |Rest(d)| && |Longs(d)| == d.ls + 1
  {
    hide Numeral;
  }

  /** So the format prints the conversion there and goes on behind it. */
  lemma FormatAt(fmt: Text, args: seq<Arg>, p: nat, k: nat, d: Directive)
    requires Sane(d) && Here(fmt, p, Written(d))
    ensures Format(fmt, args, p, k) ==
      Conversion(d.c, Fields(d), args, k) + Format(fmt, args, p + |Written(d)|, if d.c == '%' then k else k + 1)
  {
    hide Escape, Conversion, Written, Fields;
    DirectiveRead(fmt, args, p, k, d);
  }

  // ------------------------------------------------------------- what comes out

  /** The value of argument k as an unsigned number of 32 bits, or of 64 with "ll". */
  function Unsigned(n: int, ls: nat): nat { n % (if ls >= 2 then 0x1_0000_0000_0000_0000 else 0x1_0000_0000) }

  /** %u, %x and %o: the numeral in base 10, 16 or 8, padded on the left to the width. */
  lemma PrintsUnsigned(fmt: Text, args: seq<Arg>, p: nat, k: nat, d: Directive, base: nat, n: int)
    requires Sane(d) && Here(fmt, p, Written(d)) && k < |args| && args[k] == Int(n)
    requires (d.c == 'u' && base == 10) || (d.c == 'x' && base == 16) || (d.c == 'o' && base == 8)
    ensures var digits := Numeral(Unsigned(n, d.ls), base);
      Format(fmt, args, p, k) ==
        Repeat(if d.flag == "0" then '0' else if d.flag == "-" then '-' else ' ', d.width - |digits|) + digits +
        Format(fmt, args, p + |Written(d)|, k + 1)
  {
    hide Format, Numeral, Printnum, Written;
    FormatAt(fmt, args, p, k, d);
    Padding(Unsigned(n, d.ls), base, d);
  }

  lemma Padding(m: nat, base: nat, d: Directive)
    requires 2 <= base <= 16
    ensures Printnum(m, base, Fields(d).width, PadOf(d)) == Repeat(PadOf(d), d.width - |Numeral(m, base)|) + Numeral(m, base)
  {
    hide Numeral, Printnum;
    PrintnumIsPaddedNumeral(m, base, Fields(d).width, PadOf(d));
    assert Repeat(PadOf(d), Fields(d).width - |Numeral(m, base)|) == Repeat(PadOf(d), d.width - |Numeral(m, base)|);
  }

  /** And strtol reads the number back, padding and all, when that is blanks or zeros. */
  lemma UnsignedReadsBack(d: Directive, base: nat, n: int)
    requires Sane(d) && d.flag != "-"
    requires (d.c == 'u' && base == 10) || (d.c == 'x' && base == 16) || (d.c == 'o' && base == 8)
    ensures var t := Format(Written(d), [Int(n)], 0, 0); Strtol(t, base) == (Int32(n), |t|)
  {
    hide Format, Numeral, Printnum, Written, Strtol, Int32;
    var t := Format(Written(d), [Int(n)], 0, 0);
    assert Here(Written(d), 0, Written(d));
    FormatAt(Written(d), [Int(n)], 0, 0, d);
    NothingLeft(Written(d), [Int(n)], 1);
    var m := Unsigned(n, d.ls);
    assert GetUint(n, d.ls) == m;
    assert t == Printnum(m, base, Fields(d).width, PadOf(d)) + [] == Printnum(m, base, Fields(d).width, PadOf(d));
    StrtolInvertsPrintnum(Unsigned(n, d.ls), base, Fields(d).width, PadOf(d));
    SameLowWord(n, d.ls);
  }

  lemma NothingLeft(fmt: Text, args: seq<Arg>, k: nat)
    ensures Format(fmt, args, |fmt|, k) == []
  {
  }

  lemma SameLowWord(n: int, ls: nat)
    ensures Int32(Unsigned(n, ls)) == Int32(n)
  {
    var m := n / 0x1_0000_0000_0000_0000;
    assert n % 0x1_0000_0000_0000_0000 == n - 0x1_0000_0000 * (0x1_0000_0000 * m);
    Int32Shift(n, -(0x1_0000_0000 * m));
    var q := n / 0x1_0000_0000;
    Int32Shift(n, -q);
  }

  /** %d: the sign, the padding and the digits, in this order. */
  lemma PrintsSigned(fmt: Text, args: seq<Arg>, p: nat, k: nat, d: Directive, n: int)
    requires Sane(d) && Here(fmt, p, Written(d)) && k < |args| && args[k] == Int(n) && d.c == 'd'
    requires if d.ls >= 2 then -0x8000_0000_0000_0000 <= n < 0x8000_0000_0000_0000 else -0x8000_0000 <= n < 0x8000_0000
    ensures var digits := Numeral(if n < 0 then -n else n, 10);
      Format(fmt, args, p, k) ==
        (if n < 0 then "-" else "") +
        (Repeat(if d.flag == "0" then '0' else if d.flag == "-" then '-' else ' ', d.width - |digits|) + digits) +
        Format(fmt, args, p + |Written(d)|, k + 1)
  {
    hide Format, Numeral, Printnum, Written;
    FormatAt(fmt, args, p, k, d);
    assert GetInt(n, d.ls) == n by { SignedValue(n, d.ls); }
    Padding(if n < 0 then -n else n, 10, d);
  }

  lemma SignedValue(n: int, ls: nat)
    requires if ls >= 2 then -0x8000_0000_0000_0000 <= n < 0x8000_0000_0000_0000 else -0x8000_0000 <= n < 0x8000_0000
    ensures GetInt(n, ls) == n
  {
  }

  /** %p: "0x" and the hexadecimal numeral of the low word. */
  lemma PrintsPointer(fmt: Text, args: seq<Arg>, p: nat, k: nat, d: Directive, n: int)
    requires Sane(d) && Here(fmt, p, Written(d)) && k < |args| && args[k] == Int(n) && d.c == 'p'
    ensures var digits := Numeral(n % 0x1_0000_0000, 16);
      Format(fmt, args, p, k) ==
        "0x" + (Repeat(if d.flag == "0" then '0' else if d.flag == "-" then '-' else ' ', d.width - |digits|) + digits) +
        Format(fmt, args, p + |Written(d)|, k + 1)
  {
    hide Format, Numeral, Printnum, Written;
    FormatAt(fmt, args, p, k, d);
    Padding(n % 0x1_0000_0000, 16, d);
  }

  /** %c is the one character, and %% a percent sign that takes no argument. */
  lemma PrintsChar(fmt: Text, args: seq<Arg>, p: nat, k: nat, d: Directive, n: int)
    requires Sane(d) && Here(fmt, p, Written(d)) && k < |args| && args[k] == Int(n)
    ensures d.c == 'c' ==> Format(fmt, args, p, k) == [(n % 256) as char] + Format(fmt, args, p + |Written(d)|, k + 1)
    ensures d.c == '%' ==> Format(fmt, args, p, k) == "%" + Format(fmt, args, p + |Written(d)|, k)
  {
    hide Format, Written;
    FormatAt(fmt, args, p, k, d);
  }

  /**
    %s: the first characters of the string, as many as the precision allows, padded with
    blanks to the width; on the right with the flag -, else on the left (there with zeros
    for the flag 0). A null pointer prints as (null). The flag # shows unprintable
    characters as question marks.
  */
  lemma PrintsString(fmt: Text, args: seq<Arg>, p: nat, k: nat, d: Directive, s: Option<Text>)
    requires Sane(d) && Here(fmt, p, Written(d)) && k < |args| && args[k] == Str(s) && d.c == 's'
    ensures var t := if s == None then "(null)" else s.value;
      var m := if d.prec == 0 || |t| <= d.prec then |t| else d.prec;
      var shown := seq(m, i requires 0 <= i < m => if d.flag == "#" && !(' ' <= t[i] <= '~') then '?' else t[i]);
      Format(fmt, args, p, k) ==
        (if d.flag == "-" then "" else Repeat(if d.flag == "0" then '0' else ' ', d.width - m)) + shown +
        (if d.flag == "-" then Repeat(' ', d.width - m) else "") +
        Format(fmt, args, p + |Written(d)|, k + 1)
  {
    hide Format, Written;
    FormatAt(fmt, args, p, k, d);
    var t := if s == None then "(null)" else s.value;
    StringMeaning(d, t);
  }

  lemma StringMeaning(d: Directive, t: Text)
    requires Sane(d)
    ensures var m := if d.prec == 0 || |t| <= d.prec then |t| else d.prec;
      var shown := seq(m, i requires 0 <= i < m => if d.flag == "#" && !(' ' <= t[i] <= '~') then '?' else t[i]);
      StringOut(t, Fields(d)) ==
        (if d.flag == "-" then "" else Repeat(if d.flag == "0" then '0' else ' ', d.width - m)) + shown +
        (if d.flag == "-" then Repeat(' ', d.width - m) else "")
  {
    var e := Fields(d);
    var m := if d.prec == 0 || |t| <= d.prec then |t| else d.prec;
    var cut := if e.prec < 0 || |t| <= e.prec then t else t[..e.prec];
    var shown := seq(m, i requires 0 <= i < m => if d.flag == "#" && !(' ' <= t[i] <= '~') then '?' else t[i]);
    assert |cut| == m && seq(|cut|, i requires 0 <= i < |cut| => Visible(cut[i], e.alt)) == shown;
    assert e.width <= 0 ==> d.width == 0;
    if d.flag == "-" {
      assert Repeat(e.padc, 0) == [] && Repeat(' ', e.width - m) == Repeat(' ', d.width - m);
    } else if d.width > 0 {
      assert Repeat(' ', 0) == [];
    } else {
      assert Repeat(e.padc, 0) == [] && Repeat(' ', e.width - m) == [] && Repeat(PadOf(d), 0 - m) == [];
    }
  }

  /** %e: the message of the error number, whatever its sign, or the number itself. */
  lemma PrintsError(fmt: Text, args: seq<Arg>, p: nat, k: nat, d: Directive, n: int)
    requires Sane(d) && Here(fmt, p, Written(d)) && k < |args| && args[k] == Int(n) && d.c == 'e'
    ensures Format(fmt, args, p, k) ==
      (if n == 1 || n == -1 then "unspecified error"
       else if n == 2 || n == -2 then "bad environment"
       else if n == 3 || n == -3 then "invalid parameter"
       else if n == 4 || n == -4 then "out of memory"
       else if n == 5 || n == -5 then "out of environments"
       else if n == 6 || n == -6 then "segmentation fault"
       else "error " + Numeral(if n < 0 then -n else n, 10)) +
      Format(fmt, args, p + |Written(d)|, k + 1)
  {
    hide Format, Written, Numeral, Printnum;
    FormatAt(fmt, args, p, k, d);
    var m := if n < 0 then -n else n;
    PrintnumIsPaddedNumeral(m, 10, -1, ' ');
    assert Repeat(' ', -1 - |Numeral(m, 10)|) == [];
  }
}
