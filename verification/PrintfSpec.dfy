/** What vsnprintf is asked to produce: the untruncated output of a format and its arguments,
    built from whole fields, with no buffer, size or character-by-character state. */
module PrintfSpec {
  import opened Bits

  /** One variadic argument: a 64-bit register value, a string, or a null string pointer. */
  datatype Arg = Word(w: nat) | Text(s: string) | NoText

  /** What the characters between '%' and the conversion character have set. */
  datatype Directive = Directive(
    left: bool, sharp: bool, signed: bool, dot: bool, pad: char, width: int, precision: int,
    l: bool, q: bool, h: bool, c: bool, j: bool, t: bool, z: bool)

  const Plain: Directive :=
    Directive(false, false, false, false, ' ', 0, 0, false, false, false, false, false, false, false)

  /** A directive read from the format: the conversion character, the index after it, and the
      arguments left. */
  datatype Parsed = Parsed(d: Directive, conv: char, next: nat, args: seq<Arg>)

  const NUL: char := 0 as char

  // ---------------------------------------------------------------- arguments

  function Rest(args: seq<Arg>): seq<Arg> { if |args| == 0 then [] else args[1..] }

  /** The next argument as a 64-bit word. Reading past the last argument gives zero. */
  function NextWord(args: seq<Arg>): (w: nat)
    ensures w < 0x1_0000_0000_0000_0000
  {
    if |args| > 0 && args[0].Word? then args[0].w % 0x1_0000_0000_0000_0000 else 0
  }

  function NextText(args: seq<Arg>): string {
    if |args| > 0 && args[0].Text? then args[0].s else "(null)"
  }

  /** The low n bits of a word, with 2^n given, as an unsigned or as a signed number. */
  function Unsigned(w: nat, modulus: nat): nat
    requires modulus > 0
  {
    w % modulus
  }

  function Signed(w: nat, modulus: nat): int
    requires modulus > 0
  {
    if w % modulus < modulus / 2 then w % modulus else w % modulus - modulus
  }

  // ---------------------------------------------------------------- reading a directive

  predicate IsDigit(c: char) { '0' <= c <= '9' }

  function DigitsEnd(fmt: string, i: nat): (k: nat)
    requires i <= |fmt|
    ensures i <= k <= |fmt|
    decreases |fmt| - i
  {
    if i < |fmt| && IsDigit(fmt[i]) then DigitsEnd(fmt, i + 1) else i
  }

  /** The number a run of decimal digits stands for. */
  function Decimal(s: string): nat
    requires forall k :: 0 <= k < |s| ==> IsDigit(s[k])
  {
    if |s| == 0 then 0
    else
      assert IsDigit(s[|s| - 1]);
      10 * Decimal(s[..|s| - 1]) + (s[|s| - 1] as int - '0' as int)
  }

  lemma {:induction false} DigitsAreDigits(fmt: string, i: nat)
    requires i <= |fmt|
    ensures forall k :: i <= k < DigitsEnd(fmt, i) ==> IsDigit(fmt[k])
    decreases |fmt| - i
  {
    if i < |fmt| && IsDigit(fmt[i]) {
      DigitsAreDigits(fmt, i + 1);
    }
  }

  function DecimalAt(fmt: string, i: nat): nat
    requires i <= |fmt|
  {
    DigitsAreDigits(fmt, i);
    Decimal(fmt[i..DigitsEnd(fmt, i)])
  }

  /** One character of a directive that is not a number: a flag or a length modifier. */
  function Modify(d: Directive, c: char): (r: Directive)
    ensures r.precision == d.precision && r.dot == (d.dot || c == '.')
  {
    match c
    case '.' => d.(dot := true)
    case '#' => d.(sharp := true)
    case '+' => d.(signed := true)
    case '-' => d.(left := true)
    case '0' => d.(pad := '0')
    case 'h' => if d.h then d.(h := false, c := true) else d.(h := true)
    case 'j' => d.(j := true)
    case 'l' => if d.l then d.(l := false, q := true) else d.(l := true)
    case 'q' => d.(q := true)
    case 't' => d.(t := true)
    case 'z' => d.(z := true)
    case _ => d
  }

  predicate IsModifier(c: char) { c in ".#+-0hjlqtz" }

  /** A '*': the width or the precision is the next argument, an int. */
  function Star(d: Directive, args: seq<Arg>): (r: Directive)
    ensures r.dot == d.dot && (d.dot || r.precision == d.precision)
  {
    var n := Signed(NextWord(args), 0x1_0000_0000);
    if d.dot then d.(precision := n)
    else if n < 0 then d.(left := !d.left, width := -n)
    else d.(width := n)
  }

  /** A number: the width or, behind a dot, the precision. */
  function Numbered(d: Directive, n: int): (r: Directive)
    ensures r.dot == d.dot && (d.dot || r.precision == d.precision)
  {
    if d.dot then d.(precision := n) else d.(width := n)
  }

  /** The directive whose characters start at i, given what has been set so far. */
  function Parse(fmt: string, i: nat, d: Directive, args: seq<Arg>): (p: Parsed)
    requires i <= |fmt|
    ensures p.conv != NUL ==> i < p.next <= |fmt|
    decreases |fmt| - i
  {
    if i == |fmt| then Parsed(d, NUL, i, args)
    else if IsModifier(fmt[i]) && !(fmt[i] == '0' && d.dot) then Parse(fmt, i + 1, Modify(d, fmt[i]), args)
    else if fmt[i] == '*' then Parse(fmt, i + 1, Star(d, args), Rest(args))
    else if IsDigit(fmt[i]) then
      Parse(fmt, DigitsEnd(fmt, i + 1), Numbered(d, DecimalAt(fmt, i)), args)
    else Parsed(d, fmt[i], i + 1, args)
  }

  // ---------------------------------------------------------------- fields

  function Max(a: int, b: int): int { if a < b then b else a }

  function Repeat(c: char, n: int): (s: string)
    ensures |s| == Max(n, 0)
  {
    if n <= 0 then "" else Repeat(c, n - 1) + [c]
  }

  /** A field of at least d.width characters around a text. */
  function Justified(d: Directive, text: string, pad: char): string {
    if d.left then text + Repeat(pad, d.width - |text|) else Repeat(pad, d.width - |text|) + text
  }

  /** A string argument: at most `precision` of it when a precision was given, padded. */
  function TextField(d: Directive, s: string): string {
    var shown := if d.dot then s[..Max(0, if d.precision < |s| then d.precision else |s|)] else s;
    Justified(d, shown, d.pad)
  }

  const DIGITS: string := "0123456789abcdefghijklmnopqrstuvwxyz"

  function Upper(c: char): char { if 'a' <= c <= 'z' then (c as int - 32) as char else c }

  function Digit(k: nat, upper: bool): char
    requires k < 36
  {
    if upper then Upper(DIGITS[k]) else DIGITS[k]
  }

  /** A number in a base, most significant digit first. */
  function Digits(v: nat, base: nat, upper: bool): (s: string)
    requires 2 <= base <= 36
    ensures |s| > 0
  {
    if v < base then [Digit(v, upper)]
    else
      Quotient(v, base);
      Digits(v / base, base, upper) + [Digit(v % base, upper)]
  }

  lemma {:induction false} Quotient(v: nat, base: nat)
    requires 2 <= base
    ensures v > 0 ==> v / base < v
    ensures v / base >= 0 && v % base < base
  {
    DivLess(v, base);
  }

  /** The sign and the base mark. */
  function Prefix(d: Directive, base: nat, v: int): string {
    (if v < 0 then "-" else "")
    + (if !d.sharp || v == 0 then "" else if base == 8 then "0" else if base == 16 then "0x" else "")
  }

  /** How many digits the number is filled up to with zeros. */
  function LeastDigits(d: Directive, base: nat, v: int): int {
    if !d.left && d.pad == '0' then d.width - |Prefix(d, base, v)| else d.precision
  }

  function Magnitude(v: int): nat { if v < 0 then -v else v }

  function NumberField(d: Directive, base: nat, upper: bool, v: int): string
    requires 2 <= base <= 36
  {
    var digits := Digits(Magnitude(v), base, upper);
    Justified(d, Prefix(d, base, v) + Repeat('0', LeastDigits(d, base, v) - |digits|) + digits, ' ')
  }

  /** The value of a numeric argument: the length modifiers say how much of the word counts.
      Plain char is unsigned on this architecture. */
  function NumberArg(d: Directive, w: nat, signed: bool): int {
    var modulus := if d.j || d.q || d.t || d.l || d.z then 0x1_0000_0000_0000_0000
                   else if d.h then 0x1_0000 else if d.c then 0x100 else 0x1_0000_0000;
    if signed && modulus != 0x100 then Signed(w, modulus) else Unsigned(w, modulus)
  }

  predicate IsConversion(c: char) { c in "%cdinoprsuXxy" }

  /** The text of one directive and the arguments it leaves. */
  function Render(p: Parsed): (string, seq<Arg>)
    requires IsConversion(p.conv)
  {
    var d, w, rest := p.d, NextWord(p.args), Rest(p.args);
    match p.conv
    case '%' => ("%", p.args)
    case 'c' => ([Unsigned(w, 256) as char], rest)
    case 'n' => ("", rest)
    case 's' => (TextField(d, NextText(p.args)), rest)
    case 'p' => (NumberField(d.(sharp := d.width == 0), 16, false, w), rest)
    case 'o' => (NumberField(d, 8, false, NumberArg(d, w, false)), rest)
    case 'u' => (NumberField(d, 10, false, NumberArg(d, w, false)), rest)
    case 'x' => (NumberField(d, 16, false, NumberArg(d, w, false)), rest)
    case 'X' => (NumberField(d, 16, true, NumberArg(d, w, false)), rest)
    case 'y' => (NumberField(d, 16, false, NumberArg(d, w, true)), rest)
    case 'r' => (NumberField(d, 10, false, NumberArg(d, w, d.signed)), rest)
    case _ => (NumberField(d, 10, false, NumberArg(d, w, true)), rest)
  }

  // ---------------------------------------------------------------- the whole output

  /** No directive is cut off by the end of the format. After an unknown conversion the rest of
      the format is plain text. */
  predicate Closed(fmt: string, i: nat, args: seq<Arg>)
    requires i <= |fmt|
    decreases |fmt| - i
  {
    if i == |fmt| then true
    else if fmt[i] != '%' then Closed(fmt, i + 1, args)
    else
      var p := Parse(fmt, i + 1, Plain, args);
      p.conv != NUL && (IsConversion(p.conv) ==> Closed(fmt, p.next, Render(p).1))
  }

  /** The untruncated output of the format from index i on. */
  function Output(fmt: string, i: nat, args: seq<Arg>): string
    requires i <= |fmt| && Closed(fmt, i, args)
    decreases |fmt| - i
  {
    if i == |fmt| then ""
    else if fmt[i] != '%' then [fmt[i]] + Output(fmt, i + 1, args)
    else
      var p := Parse(fmt, i + 1, Plain, args);
      if IsConversion(p.conv) then Render(p).0 + Output(fmt, p.next, Render(p).1) else fmt[i..]
  }

  // ---------------------------------------------------------------- stored counts

  /** What %n stores through its argument: as many bytes, and the count of characters so far. */
  datatype Store = Store(bytes: nat, count: nat)

  function CountStored(d: Directive, count: nat): Store {
    if d.j || d.q || d.l || d.z then Store(8, count % 0x1_0000_0000_0000_0000)
    else if d.h then Store(2, count % 0x1_0000)
    else if d.c then Store(1, count % 0x100)
    else Store(4, count % 0x1_0000_0000)
  }

  function StoredBy(p: Parsed, count: nat): seq<Store> {
    if p.conv == 'n' then [CountStored(p.d, count)] else []
  }

  /** The stores of the format from index i on, after `count` characters of output. */
  function Stores(fmt: string, i: nat, args: seq<Arg>, count: nat): seq<Store>
    requires i <= |fmt| && Closed(fmt, i, args)
    decreases |fmt| - i
  {
    if i == |fmt| then []
    else if fmt[i] != '%' then Stores(fmt, i + 1, args, count + 1)
    else
      var p := Parse(fmt, i + 1, Plain, args);
      if IsConversion(p.conv)
      then StoredBy(p, count) + Stores(fmt, p.next, Render(p).1, count + |Render(p).0|)
      else []
  }

  // ---------------------------------------------------------------- what the fields mean

  function DigitValue(c: char): int {
    if '0' <= c <= '9' then c as int - '0' as int
    else if 'a' <= c <= 'z' then c as int - 'a' as int + 10
    else if 'A' <= c <= 'Z' then c as int - 'A' as int + 10
    else 0
  }

  /** The number a digit string stands for in a base. */
  function Value(s: string, base: nat): int {
    if |s| == 0 then 0 else base * Value(s[..|s| - 1], base) + DigitValue(s[|s| - 1])
  }

  lemma {:induction false} DigitBack(k: nat, upper: bool)
    requires k < 36
    ensures DigitValue(Digit(k, upper)) == k && Digit(k, upper) != NUL
  {
  }

  /** Number conversion is exact: the digits of v read back as v, and there is no leading zero. */
  lemma {:induction false} DigitsReadBack(v: nat, base: nat, upper: bool)
    requires 2 <= base <= 36
    ensures Value(Digits(v, base, upper), base) == v
    ensures v > 0 ==> DigitValue(Digits(v, base, upper)[0]) > 0
    ensures forall c <- Digits(v, base, upper) :: c != NUL
  {
    hide DigitValue, Digit;
    if v < base {
      DigitBack(v, upper);
      assert Value([Digit(v, upper)], base) == base * Value([], base) + DigitValue(Digit(v, upper));
    } else {
      Quotient(v, base);
      DigitBack(v % base, upper);
      DigitsReadBack(v / base, base, upper);
      var s := Digits(v / base, base, upper);
      assert (s + [Digit(v % base, upper)])[..|s|] == s;
    }
  }

  /** A number below 2^n has at most n digits in any base. */
  lemma {:induction false} DigitsFit(v: nat, base: nat, upper: bool, n: nat)
    requires 2 <= base <= 36 && n > 0 && v < Pow2(n)
    ensures |Digits(v, base, upper)| <= n
  {
    if v >= base {
      Quotient(v, base);
      Halves(v, base, n);
      DigitsFit(v / base, base, upper, n - 1);
    }
  }

  lemma {:induction false} Halves(v: nat, base: nat, n: nat)
    requires 2 <= base <= v && v < Pow2(n)
    ensures n > 1 && v / base < Pow2(n - 1)
  {
    DivLess(v, base);
  }

  lemma {:induction false} DivLess(v: nat, base: nat)
    requires 2 <= base
    ensures 2 * (v / base) <= v
  {
    var q := v / base;
    assert q >= 0;
    assert v == base * q + v % base;
    MulGrows(base, q);
  }

  lemma {:induction false} MulGrows(a: nat, q: nat)
    requires a >= 2
    ensures a * q >= 2 * q
  {
  }

  lemma {:induction false} LeadingZeros(n: int, s: string, base: nat)
    requires 2 <= base
    ensures Value(Repeat('0', n) + s, base) == Value(s, base)
  {
    var zeros := Repeat('0', n);
    if |s| > 0 {
      assert (zeros + s)[..|zeros + s| - 1] == zeros + s[..|s| - 1];
      LeadingZeros(n, s[..|s| - 1], base);
    } else if n > 0 {
      assert zeros + s == Repeat('0', n - 1) + ['0'];
      assert (zeros + s)[..|zeros + s| - 1] == Repeat('0', n - 1) + [];
      LeadingZeros(n - 1, [], base);
      assert Value(zeros + s, base) == base * 0 + DigitValue('0');
    } else {
      assert zeros + s == s;
    }
  }

  /** The length of a numeric field: the width, or what prefix and digits need, where a
      right-justified zero-padded field disregards the precision. */
  lemma {:induction false} NumberFieldLength(d: Directive, base: nat, upper: bool, v: int)
    requires 2 <= base <= 36
    ensures var field, digits := NumberField(d, base, upper, v), |Digits(Magnitude(v), base, upper)|;
            |field| == if !d.left && d.pad == '0'
                       then Max(d.width, |Prefix(d, base, v)| + digits)
                       else Max(d.width, |Prefix(d, base, v)| + Max(d.precision, digits))
  {
    hide Digits, Prefix, Repeat;
  }

  /** A numeric field reads back: blanks only around it, then sign and base mark, then a number,
      zeros in front, whose value is the argument's. No blank precedes a zero-padded field. */
  lemma {:induction false} NumberFieldReadsBack(d: Directive, base: nat, upper: bool, v: int)
    requires 2 <= base <= 36
    ensures exists before, number, after ::
              && NumberField(d, base, upper, v)
                 == Repeat(' ', before) + (Prefix(d, base, v) + number) + Repeat(' ', after)
              && Value(number, base) == Magnitude(v)
              && (if d.left then before == 0 else after == 0)
              && (!d.left && d.pad == '0' ==> before <= 0)
  {
    hide Digits, Value, Digit, Prefix, Repeat;
    DigitsReadBack(Magnitude(v), base, upper);
    var digits := Digits(Magnitude(v), base, upper);
    var zeros := LeastDigits(d, base, v) - |digits|;
    LeadingZeros(zeros, digits, base);
    var number := Repeat('0', zeros) + digits;
    var text := Prefix(d, base, v) + number;
    assert Prefix(d, base, v) + Repeat('0', zeros) + digits == text;
    var gap := d.width - |text|;
    var field := NumberField(d, base, upper, v);
    assert field == if d.left then text + Repeat(' ', gap) else Repeat(' ', gap) + text;
    if d.left {
      assert field == Repeat(' ', 0) + text + Repeat(' ', gap);
    } else {
      assert field == Repeat(' ', gap) + text + Repeat(' ', 0);
    }
  }
}
