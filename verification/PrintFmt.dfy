/**
  vprintfmt of lib/printfmt.c, and its two consumers: vsnprintf, which keeps what
  fits in a buffer, and the user-level vcprintf, which sends chunks to the console.
*/
module PrintFmt {
  import opened Mmu
  import opened Numbers

  /** A variadic argument, as va_arg delivers it. */
  datatype Arg = Int(n: int) | Str(s: Option<Text>)

  const MAXERROR := 7
  const E_INVAL := 3

  function IntArg(args: seq<Arg>, k: nat): int { if k < |args| && args[k].Int? then args[k].n else 0 }
  function StrArg(args: seq<Arg>, k: nat): Option<Text> { if k < |args| && args[k].Str? then args[k].s else None }

  function ErrorString(err: int): Option<Text> {
    if err == 1 then Some("unspecified error")
    else if err == 2 then Some("bad environment")
    else if err == 3 then Some("invalid parameter")
    else if err == 4 then Some("out of memory")
    else if err == 5 then Some("out of environments")
    else if err == 6 then Some("segmentation fault")
    else None
  }

  // ------------------------------------------------------------ what is printed

  /** The fields of an escape sequence collected so far. */
  datatype Esc = Esc(padc: char, width: int, prec: int, lflag: nat, alt: bool)

  const PLAIN: Esc := Esc(' ', -1, -1, 0, false)

  function GetUint(n: int, lflag: nat): nat {
    if lflag >= 2 then n % 0x1_0000_0000_0000_0000 else n % 0x1_0000_0000
  }

  function GetInt(n: int, lflag: nat): int {
    var u := GetUint(n, lflag);
    var half := if lflag >= 2 then 0x8000_0000_0000_0000 else 0x8000_0000;
    if u < half then u else u - 2 * half
  }

  function Number(num: nat, base: nat, e: Esc): Text
    requires 2 <= base <= 16
  {
    Printnum(num, base, e.width, e.padc)
  }

  function Signed(n: int, e: Esc): Text {
    var v := GetInt(n, e.lflag);
    if v < 0 then "-" + Number(-v, 10, e) else Number(v, 10, e)
  }

  function Visible(c: char, alt: bool): char {
    if alt && (c < ' ' || c > '~') then '?' else c
  }

  /** %s: padded on the left unless the flag is '-', cut to the precision, padded on the right with blanks. */
  function StringOut(s: Text, e: Esc): Text {
    var shown := if e.prec < 0 || |s| <= e.prec then s else s[..e.prec];
    var left := if e.width > 0 && e.padc != '-' then e.width - |shown| else 0;
    var right := if e.width > 0 && e.padc != '-' then 0 else e.width - |shown|;
    Repeat(e.padc, left) + seq(|shown|, i requires 0 <= i < |shown| => Visible(shown[i], e.alt)) + Repeat(' ', right)
  }

  function ErrorOut(n: int): Text {
    var err := if n < 0 then -n else n;
    match ErrorString(err)
    case None => "error " + Printnum(err, 10, -1, ' ')
    case Some(s) => s
  }

  /** The conversion characters that end an escape and print something. */
  predicate Converts(c: char) { c in "cesduopx%" }

  function Conversion(c: char, e: Esc, args: seq<Arg>, k: nat): Text {
    if c == 'c' then [(IntArg(args, k) % 256) as char]
    else if c == 'e' then ErrorOut(IntArg(args, k))
    else if c == 's' then StringOut(if StrArg(args, k) == None then "(null)" else StrArg(args, k).value, e)
    else if c == 'd' then Signed(IntArg(args, k), e)
    else if c == 'u' then Number(GetUint(IntArg(args, k), e.lflag), 10, e)
    else if c == 'o' then Number(GetUint(IntArg(args, k), e.lflag), 8, e)
    else if c == 'p' then "0x" + Number(IntArg(args, k) % 0x1_0000_0000, 16, e)
    else if c == 'x' then Number(GetUint(IntArg(args, k), e.lflag), 16, e)
    else "%"
  }

  predicate Nonzero(c: char) { '1' <= c <= '9' }
  predicate Decimal(c: char) { '0' <= c <= '9' }

  /** The number that starts at i, read on from val, and the position after it. */
  function Digits(fmt: Text, i: nat, val: nat): (r: (nat, nat))
    requires i <= |fmt|
    ensures i <= r.1 <= |fmt|
    decreases |fmt| - i
  {
    if i < |fmt| && Decimal(fmt[i]) then Digits(fmt, i + 1, val * 10 + (fmt[i] - '0') as nat) else (val, i)
  }

  function ProcessPrecision(e: Esc, n: int): Esc {
    if e.width < 0 then e.(width := n, prec := -1) else e.(prec := n)
  }

  /** Flags that goto reswitch without an argument or a number. */
  predicate Flag(c: char) { c in "-0.#l" }

  function ApplyFlag(c: char, e: Esc): Esc {
    if c == '-' then e.(padc := '-')
    else if c == '0' then e.(padc := '0')
    else if c == '.' then (if e.width < 0 then e.(width := 0) else e)
    else if c == '#' then e.(alt := true)
    else e.(lflag := e.lflag + 1)
  }

  /** The outcome of an escape: its text, the position to go on from, and the arguments used. */
  datatype Done = Done(text: Text, i: nat, k: nat)

  /** The switch of vprintfmt from position i on, for the escape whose '%' is at position p. */
  function Escape(fmt: Text, args: seq<Arg>, p: nat, i: nat, k: nat, e: Esc): (r: Done)
    requires p < i <= |fmt|
    ensures p < r.i <= |fmt|
    decreases |fmt| - i
  {
    if i == |fmt| then Done("%", p + 1, k)
    else if Flag(fmt[i]) then Escape(fmt, args, p, i + 1, k, ApplyFlag(fmt[i], e))
    else if Nonzero(fmt[i]) then
      var (n, j) := Digits(fmt, i + 1, (fmt[i] - '0') as nat);
      Escape(fmt, args, p, j, k, ProcessPrecision(e, n))
    else if fmt[i] == '*' then Escape(fmt, args, p, i + 1, k + 1, ProcessPrecision(e, IntArg(args, k)))
    else if Converts(fmt[i]) then Done(Conversion(fmt[i], e, args, k), i + 1, if fmt[i] == '%' then k else k + 1)
    else Done("%", p + 1, k)
  }

  /** All that vprintfmt prints for the format from position i on. */
  function Format(fmt: Text, args: seq<Arg>, i: nat, k: nat): Text
    requires i <= |fmt|
    decreases |fmt| - i
  {
    if i == |fmt| then []
    else if fmt[i] != '%' then [fmt[i]] + Format(fmt, args, i + 1, k)
    else
      var d := Escape(fmt, args, i, i + 1, k, PLAIN);
      d.text + Format(fmt, args, d.i, d.k)
  }

  /** Characters other than '%' are printed as they stand. */
  lemma {:induction false} LiteralRun(fmt: Text, args: seq<Arg>, i: nat, q: nat, k: nat)
    requires i <= q <= |fmt| && forall j :: i <= j < q ==> fmt[j] != '%'
    ensures Format(fmt, args, i, k) == fmt[i..q] + Format(fmt, args, q, k)
    decreases q - i
  {
    hide Escape;
    if i < q {
      LiteralRun(fmt, args, i + 1, q, k);
      assert fmt[i..q] == [fmt[i]] + fmt[i + 1..q];
      assert [fmt[i]] + (fmt[i + 1..q] + Format(fmt, args, q, k)) == fmt[i..q] + Format(fmt, args, q, k);
    } else {
      assert fmt[i..q] == [];
    }
  }

  /** The escape at p breaks off at a character that is no flag and no conversion, or at the end. */
  predicate BreaksOff(fmt: Text, args: seq<Arg>, p: nat, k: nat)
    requires p < |fmt|
  {
    var d := Escape(fmt, args, p, p + 1, k, PLAIN);
    d.i == p + 1
  }

  /** An unrecognised escape is printed literally, up to the next '%'. */
  lemma UnknownEscapeIsLiteral(fmt: Text, args: seq<Arg>, p: nat, q: nat, k: nat)
    requires p < q <= |fmt| && fmt[p] == '%' && (forall j :: p < j < q ==> fmt[j] != '%') && BreaksOff(fmt, args, p, k)
    ensures var k' := Escape(fmt, args, p, p + 1, k, PLAIN).k;
      Format(fmt, args, p, k) == fmt[p..q] + Format(fmt, args, q, k')
  {
    hide Escape, Converts;
    EscapeEnds(fmt, args, p, p + 1, k, PLAIN);
    var d := Escape(fmt, args, p, p + 1, k, PLAIN);
    LiteralRun(fmt, args, p + 1, q, d.k);
    assert fmt[p..q] == "%" + fmt[p + 1..q];
    assert "%" + (fmt[p + 1..q] + Format(fmt, args, q, d.k)) == fmt[p..q] + Format(fmt, args, q, d.k);
  }

  /** An escape either gets past its conversion character, or puts out a single '%' and goes back. */
  lemma {:induction false} EscapeEnds(fmt: Text, args: seq<Arg>, p: nat, i: nat, k: nat, e: Esc)
    requires p < i <= |fmt|
    ensures var d := Escape(fmt, args, p, i, k, e);
      (d.i == p + 1 && d.text == "%") || (d.i > i && Converts(fmt[d.i - 1]))
    decreases |fmt| - i
  {
    hide Conversion, ApplyFlag, ProcessPrecision, Digits;
    if i < |fmt| {
      if Flag(fmt[i]) {
        EscapeEnds(fmt, args, p, i + 1, k, ApplyFlag(fmt[i], e));
      } else if Nonzero(fmt[i]) {
        var (n, j) := Digits(fmt, i + 1, (fmt[i] - '0') as nat);
        EscapeEnds(fmt, args, p, j, k, ProcessPrecision(e, n));
      } else if fmt[i] == '*' {
        EscapeEnds(fmt, args, p, i + 1, k + 1, ProcessPrecision(e, IntArg(args, k)));
      }
    }
  }

  // ------------------------------------------- what is printed can be read back

  lemma PlainConversion(c: char, args: seq<Arg>)
    requires Converts(c)
    ensures Format(['%', c], args, 0, 0) == Conversion(c, PLAIN, args, 0)
  {
    hide Conversion;
    var fmt := ['%', c];
    assert !Flag(c) && !Nonzero(c) && c != '*';
    assert Escape(fmt, args, 0, 1, 0, PLAIN) == Done(Conversion(c, PLAIN, args, 0), 2, if c == '%' then 0 else 1);
    assert Format(fmt, args, 2, if c == '%' then 0 else 1) == [];
  }

  /** strtol reads back what "%d" prints, for every int. */
  lemma DecimalReadsBack(n: int)
    requires -0x8000_0000 <= n < 0x8000_0000
    ensures var t := Format("%d", [Int(n)], 0, 0); Strtol(t, 10) == (n, |t|)
  {
    hide Strtol, Printnum;
    PlainConversion('d', [Int(n)]);
    assert "%d" == ['%', 'd'];
    assert GetInt(n, 0) == n;
    Int32Fits(n);
    if n < 0 { StrtolInvertsNegativeIff(-n, 10, -1, ' '); } else { StrtolInvertsPrintnum(n, 10, -1, ' '); }
  }

  /** And what "%x" and "%o" print, as a signed number; with base 16 it also skips the "0x" of "%p". */
  lemma HexOctalReadBack(n: Word)
    ensures var t := Format("%x", [Int(n)], 0, 0); Strtol(t, 16) == (Int32(n), |t|)
    ensures var t := Format("%o", [Int(n)], 0, 0); Strtol(t, 8) == (Int32(n), |t|)
    ensures var t := Format("%p", [Int(n)], 0, 0); Strtol(t, 16) == (Int32(n), |t|)
  {
    hide Strtol, Printnum, Format, Int32;
    PlainConversion('x', [Int(n)]);
    PlainConversion('o', [Int(n)]);
    PlainConversion('p', [Int(n)]);
    assert "%x" == ['%', 'x'] && "%o" == ['%', 'o'] && "%p" == ['%', 'p'];
    assert GetUint(n, 0) == n && n % 0x1_0000_0000 == n;
    StrtolInvertsPrintnum(n, 16, -1, ' ');
    StrtolInvertsPrintnum(n, 8, -1, ' ');
    PrefixedReadsBack(n);
  }

  lemma PrefixedReadsBack(n: nat)
    ensures var t := "0x" + Printnum(n, 16, -1, ' '); Strtol(t, 16) == (Int32(n), |t|)
  {
    hide Printnum, ReadDigits, Numeral, Int32;
    var u := Printnum(n, 16, -1, ' ');
    ReadPadded("0x", n, 16, -1, ' ');
    PrintnumIsPaddedNumeral(n, 16, -1, ' ');
    var t := "0x" + u;
    assert t[0] == '0' && t[1] == 'x';
    assert SkipBlanks(t, 0) == 0;
    assert |u| == |Numeral(n, 16)|;
  }

  // ------------------------------------------------------------ the minus flag

  /** What the flag's comment calls for: the text, padded on the right with blanks. */
  function PaddedRight(t: Text, width: int): Text { t + Repeat(' ', width - |t|) }

  /** The escape "%-*c" with the width w. */
  lemma MinusEscape(c: char, w: int, a: Arg)
    requires c == 'd' || c == 's'
    ensures Format(['%', '-', '*', c], [Int(w), a], 0, 0) == Conversion(c, Esc('-', w, -1, 0, false), [Int(w), a], 1)
  {
    hide Conversion;
    var fmt, args := ['%', '-', '*', c], [Int(w), a];
    var e := Esc('-', -1, -1, 0, false);
    assert Escape(fmt, args, 0, 3, 1, e.(width := w)) == Done(Conversion(c, e.(width := w), args, 1), 4, 2);
    assert ProcessPrecision(e, w) == e.(width := w);
    assert Escape(fmt, args, 0, 2, 0, e) == Escape(fmt, args, 0, 3, 1, e.(width := w));
    assert Escape(fmt, args, 0, 1, 0, PLAIN) == Escape(fmt, args, 0, 2, 0, e);
    assert Format(fmt, args, 4, 2) == [];
  }

  /** For strings the minus flag does what its comment says. */
  lemma MinusPadsStrings(w: int, s: Text)
    ensures Format("%-*s", [Int(w), Str(Some(s))], 0, 0) == PaddedRight(s, w)
  {
    hide Format;
    MinusEscape('s', w, Str(Some(s)));
    assert "%-*s" == ['%', '-', '*', 's'];
    assert seq(|s|, i requires 0 <= i < |s| => Visible(s[i], false)) == s;
  }

  /**
    For numbers it pads on the left, with minus signs: the output is what the comment
    says exactly when the width leaves nothing to pad.
  */
  lemma MinusPadsNumbersIff(w: int, n: int)
    requires -0x8000_0000 <= n < 0x8000_0000
    ensures var digits := Numeral(if n < 0 then -n else n, 10);
      && Format("%-*d", [Int(w), Int(n)], 0, 0) == (if n < 0 then "-" else "") + Repeat('-', w - |digits|) + digits
      && (Format("%-*d", [Int(w), Int(n)], 0, 0) == PaddedRight(Format("%d", [Int(n)], 0, 0), w) <==> w <= |digits|)
  {
    hide Format, Printnum, Numeral;
    MinusEscape('d', w, Int(n));
    PlainConversion('d', [Int(n)]);
    assert "%-*d" == ['%', '-', '*', 'd'] && "%d" == ['%', 'd'];
    assert GetInt(n, 0) == n;
    var m := if n < 0 then -n else n;
    PrintnumIsPaddedNumeral(m, 10, w, '-');
    PrintnumIsPaddedNumeral(m, 10, -1, ' ');
    var digits := Numeral(m, 10);
    assert Repeat(' ', -1 - |digits|) == [];
    var sign := if n < 0 then "-" else "";
    var plain := sign + digits;
    assert Format("%d", [Int(n)], 0, 0) == plain;
    assert Format("%-*d", [Int(w), Int(n)], 0, 0) == sign + (Repeat('-', w - |digits|) + digits);
    assert sign + (Repeat('-', w - |digits|) + digits) == sign + Repeat('-', w - |digits|) + digits;
    if w <= |digits| {
      assert Repeat('-', w - |digits|) == [] && Repeat(' ', w - |plain|) == [];
    } else {
      NumeralCanonical(m, 10);
      LeftIsNotRight(sign, digits, w);
    }
  }

  lemma LeftIsNotRight(sign: Text, digits: Text, w: int)
    requires (sign == "" || sign == "-") && digits != [] && w > |digits| && AllDigits(digits, 10)
    ensures sign + Repeat('-', w - |digits|) + digits != PaddedRight(sign + digits, w)
  {
    var a, b := sign + Repeat('-', w - |digits|) + digits, PaddedRight(sign + digits, w);
    if a == b {
      assert |a| == |sign| + w;
      assert |b| == (if w > |sign| + |digits| then w else |sign| + |digits|);
      assert sign == "";
      assert a[0] == '-' && b[0] == digits[0];
      DigitFacts(digits[0], 10);
      assert false;
    }
  }

  // -------------------------------------------------------- vprintfmt as it runs

  /** A format with its terminating NUL, and no other. */
  ghost predicate Terminated(fmt: Text) {
    fmt != [] && fmt[|fmt| - 1] == '\0' && forall i :: 0 <= i < |fmt| - 1 ==> fmt[i] != '\0'
  }

  ghost function Body(fmt: Text): Text
    requires fmt != []
  {
    fmt[..|fmt| - 1]
  }

  /**
    vprintfmt terminates on every format and never looks past its NUL, although an
    unknown escape sends the position back to just after its '%'.
  */
  method Vprintfmt(fmt: Text, args: seq<Arg>) returns (out: Text)
    requires Terminated(fmt)
    ensures out == Format(Body(fmt), args, 0, 0)
  {
    hide Escape;
    out := [];
    var i, k := 0, 0;
    ghost var b := Body(fmt);
    while true
      invariant 0 <= i <= |b| && out + Format(b, args, i, k) == Format(b, args, 0, 0)
      decreases |b| - i
    {
      ghost var i0 := i;
      while fmt[i] != '%'
        invariant i0 <= i <= |b| && out + Format(b, args, i, k) == Format(b, args, 0, 0)
        decreases |b| - i
      {
        if fmt[i] == '\0' {
          assert Format(b, args, i, k) == [];
          return;
        }
        assert out + ([fmt[i]] + Format(b, args, i + 1, k)) == (out + [fmt[i]]) + Format(b, args, i + 1, k);
        out := out + [fmt[i]];
        i := i + 1;
      }
      var text, j, k' := EscapeLoop(fmt, args, i, k);
      assert out + (text + Format(b, args, j, k')) == (out + text) + Format(b, args, j, k');
      out := out + text;
      i, k := j, k';
    }
  }

  /** One escape sequence, its '%' at position p. */
  method EscapeLoop(fmt: Text, args: seq<Arg>, p: nat, k0: nat) returns (text: Text, i: nat, k: nat)
    requires Terminated(fmt) && p < |fmt| - 1 && fmt[p] == '%'
    ensures Done(text, i, k) == Escape(Body(fmt), args, p, p + 1, k0, PLAIN)
  {
    hide Conversion;
    ghost var b := Body(fmt);
    var e := PLAIN;
    i, k := p + 1, k0;
    while true
      invariant p < i <= |b| && (forall j :: p < j < i ==> fmt[j] != '%')
      invariant Escape(b, args, p, i, k, e) == Escape(b, args, p, p + 1, k0, PLAIN)
      decreases |b| - i
    {
      var ch := fmt[i];
      i := i + 1;
      if Flag(ch) {
        e := ApplyFlag(ch, e);
      } else if Nonzero(ch) {
        var n: int;
        n, i := PrecisionLoop(fmt, i, (ch - '0') as nat);
        e := ProcessPrecision(e, n);
      } else if ch == '*' {
        e := ProcessPrecision(e, IntArg(args, k));
        k := k + 1;
      } else if Converts(ch) {
        text := Conversion(ch, e, args, k);
        if ch != '%' {
          k := k + 1;
        }
        return;
      } else {
        text := "%";
        i := Rewind(fmt, p, i - 1);
        return;
      }
    }
  }

  /** The loop over the digits of a width or precision. */
  method PrecisionLoop(fmt: Text, i0: nat, val: nat) returns (n: nat, i: nat)
    requires Terminated(fmt) && i0 <= |fmt| - 1
    ensures (n, i) == Digits(Body(fmt), i0, val)
    ensures i0 <= i <= |fmt| - 1 && forall j :: i0 <= j < i ==> fmt[j] != '%'
  {
    n, i := val, i0;
    while Decimal(fmt[i])
      invariant i0 <= i <= |fmt| - 1 && Digits(Body(fmt), i, n) == Digits(Body(fmt), i0, val)
      invariant forall j :: i0 <= j < i ==> fmt[j] != '%'
      decreases |fmt| - i
    {
      n := n * 10 + (fmt[i] - '0') as nat;
      i := i + 1;
    }
  }

  /** The default case: back to just after the '%' that began the escape. */
  method Rewind(fmt: Text, p: nat, i0: nat) returns (i: nat)
    requires p < i0 < |fmt| && fmt[p] == '%' && forall j :: p < j < i0 ==> fmt[j] != '%'
    ensures i == p + 1
  {
    i := i0;
    while fmt[i - 1] != '%'
      invariant p < i <= i0
      decreases i
    {
      i := i - 1;
    }
  }

  // ---------------------------------------------------------------- vsnprintf

  /** struct sprintbuf over a caller's buffer of n characters. */
  class SprintBuf {
    const buf: array<char>
    const limit: nat
    var pos: nat
    var cnt: nat

    constructor (buf: array<char>, n: nat)
      requires 1 <= n <= buf.Length
      ensures this.buf == buf && limit == n - 1 && pos == 0 && cnt == 0
    {
      this.buf, limit, pos, cnt := buf, n - 1, 0, 0;
    }

    /** All characters are counted; those that fit are stored. */
    ghost predicate Holds(stream: Text)
      reads this, buf
    {
      && cnt == |stream| && limit < buf.Length
      && pos == (if |stream| <= limit then |stream| else limit)
      && buf[..pos] == stream[..pos]
    }

    /** sprintputch */
    method Put(ch: char, ghost stream: Text)
      requires Holds(stream)
      modifies this`pos, this`cnt, buf
      ensures Holds(stream + [ch])
      ensures forall i :: limit <= i < buf.Length ==> buf[i] == old(buf[i])
    {
      cnt := cnt + 1;
      if pos < limit {
        buf[pos] := ch;
        pos := pos + 1;
        assert buf[..pos] == old(buf[..pos]) + [ch];
        assert (stream + [ch])[..pos] == stream[..pos - 1] + [ch];
      } else {
        assert (stream + [ch])[..pos] == stream[..pos];
      }
    }
  }

  /**
    vsnprintf stores exactly the first n-1 characters of what the format prints, or
    all of it if that is shorter, then a NUL; and returns the full length.
  */
  method Vsnprintf(buf: array<char>, n: int, fmt: Text, args: seq<Arg>) returns (r: int)
    requires Terminated(fmt) && n <= buf.Length
    modifies buf
    ensures n < 1 ==> r == -3 && buf[..] == old(buf[..])
    ensures n >= 1 ==>
      var stream := Format(Body(fmt), args, 0, 0);
      var m := if |stream| <= n - 1 then |stream| else n - 1;
      && r == |stream| && buf[..m] == stream[..m] && buf[m] == '\0'
      && forall i :: n <= i < buf.Length ==> buf[i] == old(buf[i])
  {
    if n < 1 {
      return -E_INVAL;
    }
    hide Format;
    var b := new SprintBuf(buf, n);
    var stream := Vprintfmt(fmt, args);
    var i := 0;
    while i < |stream|
      invariant 0 <= i <= |stream| && b.Holds(stream[..i])
      invariant forall j :: n - 1 <= j < buf.Length ==> buf[j] == old(buf[j])
    {
      b.Put(stream[i], stream[..i]);
      assert stream[..i + 1] == stream[..i] + [stream[i]];
      i := i + 1;
    }
    assert stream[..i] == stream;
    buf[b.pos] := '\0';
    return b.cnt;
  }

  // ----------------------------------------------------------------- vcprintf

  function Concat(chunks: seq<Text>): Text {
    if chunks == [] then [] else Concat(chunks[..|chunks| - 1]) + chunks[|chunks| - 1]
  }

  /** struct printbuf, and the chunks that sys_cputs has received. */
  class PrintBuf {
    const buf: array<char>
    var idx: nat
    var cnt: nat
    var sent: seq<Text>

    constructor ()
      ensures buf.Length == 256 && idx == 0 && cnt == 0 && sent == [] && fresh(buf)
    {
      buf := new char[256];
      idx, cnt, sent := 0, 0, [];
    }

    /** What was sent and what waits in the buffer make up the stream; no chunk exceeds 255 characters. */
    ghost predicate Holds(stream: Text)
      reads this, buf
    {
      && buf.Length == 256 && idx < 255 && cnt == |stream|
      && Concat(sent) + buf[..idx] == stream
      && forall c :: 0 <= c < |sent| ==> |sent[c]| <= 255
    }

    /** sys_cputs */
    method Flush()
      requires idx <= buf.Length
      modifies this`sent
      ensures sent == old(sent) + [buf[..idx]] && Concat(sent) == Concat(old(sent)) + buf[..idx]
    {
      sent := sent + [buf[..idx]];
      assert sent[..|sent| - 1] == old(sent);
    }

    /** putch */
    method Put(ch: char, ghost stream: Text)
      requires Holds(stream)
      modifies this, buf
      ensures Holds(stream + [ch])
    {
      buf[idx] := ch;
      idx := idx + 1;
      assert buf[..idx] == old(buf[..idx]) + [ch];
      assert Concat(sent) + buf[..idx] == stream + [ch];
      if idx == 255 {
        Flush();
        idx := 0;
        assert Concat(sent) + buf[..0] == Concat(sent);
      }
      cnt := cnt + 1;
    }
  }

  lemma NothingSent()
    ensures Concat([]) == []
  {
  }

  /** The user-level vcprintf: its chunks, none longer than 255, put together are what the format prints. */
  method Vcprintf(fmt: Text, args: seq<Arg>) returns (cnt: int, sent: seq<Text>)
    requires Terminated(fmt)
    ensures cnt == |Format(Body(fmt), args, 0, 0)| && Concat(sent) == Format(Body(fmt), args, 0, 0)
    ensures forall c :: 0 <= c < |sent| ==> |sent[c]| <= 255
  {
    hide Format, Concat;
    var b := new PrintBuf();
    NothingSent();
    assert b.buf[..0] == [];
    var stream := Vprintfmt(fmt, args);
    var i := 0;
    while i < |stream|
      invariant 0 <= i <= |stream| && b.Holds(stream[..i])
      invariant fresh(b) && fresh(b.buf)
    {
      b.Put(stream[i], stream[..i]);
      assert stream[..i + 1] == stream[..i] + [stream[i]];
      i := i + 1;
    }
    assert stream[..i] == stream;
    b.Flush();
    return b.cnt, b.sent;
  }
}
