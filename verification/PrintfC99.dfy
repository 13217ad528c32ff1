/** What C99 (section 7.19.6.1 of ISO/IEC 9899:1999) asks of the conversions that PrintfSpec renders,
    and exactly when the two agree. */
module PrintfC99 {
  import opened PrintfSpec

  // ---------------------------------------------------------------- the standard's fields

  /** A precision was given; a negative one counts as none. */
  predicate Given(d: Directive) { d.dot && d.precision >= 0 }

  function Sign99(d: Directive, signed: bool, v: int): string {
    if v < 0 then "-" else if d.signed && signed then "+" else ""
  }

  function Mark99(d: Directive, base: nat, upper: bool, v: int): string {
    if d.sharp && base == 16 && v != 0 then if upper then "0X" else "0x" else ""
  }

  /** The digits: at least as many as the precision, which is one if none was given; zero itself has
      no digits of its own. The alternative form of an octal number starts with a zero. */
  function Digits99(d: Directive, base: nat, upper: bool, v: int): string
    requires 2 <= base <= 36
  {
    var own := if v == 0 then "" else Digits(Magnitude(v), base, upper);
    var digits := Repeat('0', (if Given(d) then d.precision else 1) - |own|) + own;
    if d.sharp && base == 8 && (digits == "" || digits[0] != '0') then "0" + digits else digits
  }

  /** The field: filled up to the width with zeros if asked for, and if neither left-justification
      nor a precision overrides that; with blanks otherwise. */
  function Field99(d: Directive, base: nat, upper: bool, signed: bool, v: int): string
    requires 2 <= base <= 36
  {
    var head, digits := Sign99(d, signed, v) + Mark99(d, base, upper, v), Digits99(d, base, upper, v);
    if !d.left && d.pad == '0' && !Given(d) then head + Repeat('0', d.width - |head| - |digits|) + digits
    else Justified(d, head + digits, ' ')
  }

  /** The length modifiers. The standard leaves more than one of them undefined; then the first of
      those here counts, in the order of the code. */
  datatype Length = J | LL | T | L | Z | H | HH | NoLength

  function LengthOf(d: Directive): Length {
    if d.j then J else if d.q then LL else if d.t then T else if d.l then L else if d.z then Z
    else if d.h then H else if d.c then HH else NoLength
  }

  /** 2^n for the n bits of the argument's type: intmax_t, long long, ptrdiff_t, long and size_t have
      64 on this architecture, short 16, char 8 and int 32. */
  function Modulus99(l: Length): nat {
    match l
    case J => 0x1_0000_0000_0000_0000
    case LL => 0x1_0000_0000_0000_0000
    case T => 0x1_0000_0000_0000_0000
    case L => 0x1_0000_0000_0000_0000
    case Z => 0x1_0000_0000_0000_0000
    case H => 0x1_0000
    case HH => 0x100
    case NoLength => 0x1_0000_0000
  }

  /** The value: the argument converted to the type, in two's complement if it is signed. */
  function Value99(d: Directive, w: nat, signed: bool): int {
    var m := Modulus99(LengthOf(d));
    if signed && w % m >= m / 2 then w % m - m else w % m
  }

  /** The one case in which the code takes another: hh is not signed char. */
  predicate SignedChar(d: Directive) { LengthOf(d) == HH }

  /** Which conversions take a signed value. The standard has no %y, a signed hexadecimal number, and no
      %r, a number that is signed if the flag + is given; the same rules are applied to them. */
  predicate IsSigned(conv: char, d: Directive) {
    conv == 'd' || conv == 'i' || conv == 'y' || (conv == 'r' && d.signed)
  }

  function Base(conv: char): nat {
    match conv
    case 'o' => 8
    case 'x' => 16
    case 'X' => 16
    case 'y' => 16
    case 'p' => 16
    case _ => 10
  }

  /** The standard leaves the form of a pointer open: here it is a hexadecimal number of 64 bits with a
      mark if no width is given. */
  function Form(conv: char, d: Directive): Directive { if conv == 'p' then d.(sharp := d.width == 0) else d }

  function ValueOf(conv: char, d: Directive, w: nat): int {
    if conv == 'p' then w else Value99(d, w, IsSigned(conv, d))
  }

  function Render99(conv: char, d: Directive, w: nat): string {
    Field99(Form(conv, d), Base(conv), conv == 'X', IsSigned(conv, d), ValueOf(conv, d, w))
  }

  // ---------------------------------------------------------------- directives

  /** What every directive read from a format keeps: without a dot there is no precision. */
  predicate Proper(d: Directive) { d.dot || d.precision == 0 }

  lemma {:induction false} ParseIsProper(fmt: string, i: nat, d: Directive, args: seq<Arg>)
    requires i <= |fmt| && Proper(d)
    ensures Proper(Parse(fmt, i, d, args).d)
    decreases |fmt| - i
  {
    hide DecimalAt, NextWord, Modify, IsModifier, Star, Numbered;
    if i == |fmt| {
    } else if IsModifier(fmt[i]) && !(fmt[i] == '0' && d.dot) {
      ParseIsProper(fmt, i + 1, Modify(d, fmt[i]), args);
    } else if fmt[i] == '*' {
      ParseIsProper(fmt, i + 1, Star(d, args), Rest(args));
    } else if IsDigit(fmt[i]) {
      ParseIsProper(fmt, DigitsEnd(fmt, i + 1), Numbered(d, DecimalAt(fmt, i)), args);
    }
  }

  // ---------------------------------------------------------------- when they agree

  /** Characters of the number before zeros and digits: the sign and a hexadecimal mark. */
  function Head(d: Directive, base: nat, v: int): string {
    (if v < 0 then "-" else "") + (if d.sharp && base == 16 && v != 0 then "0x" else "")
  }

  function OctalMark(d: Directive, base: nat, v: int): nat { if d.sharp && base == 8 && v != 0 then 1 else 0 }

  /** Exactly when the field is the standard's. There is no plus sign and no upper-case mark to
      print, and not a zero that a zero precision suppresses. A field filled with zeros has no
      precision, or one that comes to the same number of digits; in any other the octal mark does
      not add to a precision that already starts with a zero. */
  predicate Agrees(d: Directive, base: nat, upper: bool, signed: bool, v: int)
    requires 2 <= base <= 36
  {
    var n, least := |Digits(Magnitude(v), base, upper)|, |Digits(Magnitude(v), base, upper)| + OctalMark(d, base, v);
    && !(d.signed && signed && v >= 0)
    && !(d.sharp && base == 16 && upper && v != 0)
    && !(v == 0 && Given(d) && d.precision == 0 && !(d.sharp && base == 8))
    && (if !d.left && d.pad == '0' then
          Given(d) ==> Max(d.width - |Head(d, base, v)|, least) == Max(d.precision, least)
        else
          !(OctalMark(d, base, v) == 1 && d.precision > n))
  }

  /** A number as both sides write it: a head, some zeros, and its digits. */
  function Written(head: string, zeros: int, digits: string): string { head + Repeat('0', zeros) + digits }

  /** The zeros the code writes, and those the standard asks for. */
  function Zeros(d: Directive, base: nat, upper: bool, v: int): int
    requires 2 <= base <= 36
  {
    var n, mark := |Digits(Magnitude(v), base, upper)|, OctalMark(d, base, v);
    mark + Max(0, (if !d.left && d.pad == '0' then d.width - |Head(d, base, v)| - mark else d.precision) - n)
  }

  function Zeros99(d: Directive, base: nat, upper: bool, v: int): int
    requires 2 <= base <= 36
  {
    var n, mark := |Digits(Magnitude(v), base, upper)|, OctalMark(d, base, v);
    var least := Max(mark, (if Given(d) then d.precision else 1) - n);
    if !d.left && d.pad == '0' && !Given(d) then Max(least, d.width - |Head(d, base, v)| - n) else least
  }

  lemma {:induction false} RepeatMore(c: char, n: int, k: nat)
    requires n >= 0
    ensures Repeat(c, k) + Repeat(c, n) == Repeat(c, k + n)
  {
    if n > 0 {
      RepeatMore(c, n - 1, k);
      assert Repeat(c, k) + Repeat(c, n) == (Repeat(c, k) + Repeat(c, n - 1)) + [c];
    } else {
      assert Repeat(c, k) + [] == Repeat(c, k);
    }
  }

  lemma {:induction false} RepeatIs(c: char, n: int)
    ensures n <= 0 ==> Repeat(c, n) == ""
    ensures Repeat(c, 1) == [c]
    ensures forall k :: 0 <= k < |Repeat(c, n)| ==> Repeat(c, n)[k] == c
    decreases if n < 0 then 0 else n
  {
    if n > 0 {
      RepeatIs(c, n - 1);
    }
  }

  lemma {:induction false} CodeWrites(d: Directive, base: nat, upper: bool, v: int)
    requires base == 8 || base == 10 || base == 16
    ensures NumberField(d, base, upper, v)
            == Justified(d, Written(Head(d, base, v), Zeros(d, base, upper, v), Digits(Magnitude(v), base, upper)), ' ')
  {
    hide Digits, Repeat, Justified;
    var digits, head, mark := Digits(Magnitude(v), base, upper), Head(d, base, v), OctalMark(d, base, v);
    var zeros := LeastDigits(d, base, v) - |digits|;
    RepeatIs('0', mark);
    RepeatIs('0', zeros);
    RepeatIs('0', 0);
    RepeatMore('0', Max(0, zeros), mark);
    assert Prefix(d, base, v) == head + Repeat('0', mark);
    assert Repeat('0', zeros) == Repeat('0', Max(0, zeros));
    assert Prefix(d, base, v) + Repeat('0', zeros) + digits
        == head + (Repeat('0', mark) + Repeat('0', Max(0, zeros))) + digits;
  }

  /** The standard's digits of a number that has any. */
  lemma {:induction false} Digits99Are(d: Directive, base: nat, upper: bool, v: int)
    requires base == 8 || base == 10 || base == 16
    requires !(v == 0 && Given(d) && d.precision == 0 && !(d.sharp && base == 8))
    ensures var digits := Digits(Magnitude(v), base, upper);
            Digits99(d, base, upper, v)
            == Repeat('0', Max(OctalMark(d, base, v), (if Given(d) then d.precision else 1) - |digits|)) + digits
  {
    hide Digits, Repeat, Digits99;
    if v == 0 {
      ZeroDigits99(d, base, upper);
    } else {
      OwnDigits99(d, base, upper, v);
    }
  }

  lemma {:induction false} OwnDigits99(d: Directive, base: nat, upper: bool, v: int)
    requires base == 8 || base == 10 || base == 16
    requires v != 0
    ensures var digits := Digits(Magnitude(v), base, upper);
            Digits99(d, base, upper, v)
            == Repeat('0', Max(OctalMark(d, base, v), (if Given(d) then d.precision else 1) - |digits|)) + digits
  {
    hide Digits, Repeat, Given;
    var p := if Given(d) then d.precision else 1;
    var digits := Digits(Magnitude(v), base, upper);
    RepeatIs('0', p - |digits|);
    FirstDigit(Magnitude(v), base, upper);
    var filled := Repeat('0', p - |digits|) + digits;
    if p > |digits| {
      assert filled[0] == Repeat('0', p - |digits|)[0] == '0';
    } else {
      assert filled == digits;
      RepeatIs('0', OctalMark(d, base, v));
    }
  }

  lemma {:induction false} ZeroDigits99(d: Directive, base: nat, upper: bool)
    requires base == 8 || base == 10 || base == 16
    requires !(Given(d) && d.precision == 0 && !(d.sharp && base == 8))
    ensures var p := if Given(d) then d.precision else 1;
            Digits99(d, base, upper, 0) == Repeat('0', Max(0, p - 1)) + "0"
    ensures Digits(Magnitude(0), base, upper) == "0"
  {
    var p := if Given(d) then d.precision else 1;
    ZeroDigits(base, upper);
    RepeatIs('0', p);
    RepeatIs('0', 0);
    if p > 0 {
      assert Repeat('0', p) == Repeat('0', p - 1) + ['0'];
      assert Repeat('0', p - 0) + "" == Repeat('0', p);
      assert Repeat('0', p)[0] == '0';
    } else {
      assert Repeat('0', 0 - 0) + "" == "";
      assert "0" + "" == "0" == Repeat('0', 0) + "0";
    }
  }

  lemma {:induction false} ZeroDigits(base: nat, upper: bool)
    requires 2 <= base <= 36
    ensures Digits(0, base, upper) == "0" && Magnitude(0) == 0
  {
  }

  lemma {:induction false} FirstDigit(v: nat, base: nat, upper: bool)
    requires 2 <= base <= 36 && v > 0
    ensures Digits(v, base, upper)[0] != '0'
  {
    hide Digits;
    DigitsReadBack(v, base, upper);
  }

  lemma {:induction false} StandardWrites(d: Directive, base: nat, upper: bool, signed: bool, v: int)
    requires base == 8 || base == 10 || base == 16
    requires !(d.signed && signed && v >= 0) && !(d.sharp && base == 16 && upper && v != 0)
    requires !(v == 0 && Given(d) && d.precision == 0 && !(d.sharp && base == 8))
    ensures Field99(d, base, upper, signed, v)
            == Justified(d, Written(Head(d, base, v), Zeros99(d, base, upper, v), Digits(Magnitude(v), base, upper)),
                         ' ')
  {
    hide Digits, Repeat, Digits99, Justified, Sign99, Mark99, Head;
    Digits99Are(d, base, upper, v);
    HeadIs(d, base, upper, signed, v);
    var digits, head := Digits(Magnitude(v), base, upper), Head(d, base, v);
    var least := Max(OctalMark(d, base, v), (if Given(d) then d.precision else 1) - |digits|);
    if !d.left && d.pad == '0' && !Given(d) {
      FilledWithZeros(d, head, least, digits);
      assert Zeros99(d, base, upper, v) == Max(least, d.width - |head| - |digits|);
    } else {
      assert head + (Repeat('0', least) + digits) == Written(head, least, digits);
    }
  }

  lemma {:induction false} HeadIs(d: Directive, base: nat, upper: bool, signed: bool, v: int)
    requires !(d.signed && signed && v >= 0) && !(d.sharp && base == 16 && upper && v != 0)
    ensures Sign99(d, signed, v) + Mark99(d, base, upper, v) == Head(d, base, v)
  {
  }

  /** Filled up to the width, so that no blank is added. */
  lemma {:induction false} FilledWithZeros(d: Directive, head: string, least: nat, digits: string)
    requires !d.left
    ensures head + Repeat('0', d.width - |head| - |Repeat('0', least) + digits|) + (Repeat('0', least) + digits)
            == Justified(d, Written(head, Max(least, d.width - |head| - |digits|), digits), ' ')
  {
    hide Repeat;
    var fill := d.width - |head| - (least + |digits|);
    JoinedZeros(head, fill, least, digits);
    var text := Written(head, Max(least, d.width - |head| - |digits|), digits);
    assert Max(0, fill) + least == Max(least, d.width - |head| - |digits|);
    RepeatIs(' ', d.width - |text|);
    assert "" + text == text;
  }

  lemma {:induction false} JoinedZeros(head: string, fill: int, least: nat, digits: string)
    ensures head + Repeat('0', fill) + (Repeat('0', least) + digits)
            == head + Repeat('0', Max(0, fill) + least) + digits
  {
    hide Repeat;
    RepeatIs('0', fill);
    RepeatIs('0', 0);
    assert Repeat('0', fill) == Repeat('0', Max(0, fill));
    RepeatMore('0', least, Max(0, fill));
    assert head + Repeat('0', fill) + (Repeat('0', least) + digits)
        == head + (Repeat('0', fill) + Repeat('0', least)) + digits;
  }

  /** Texts without blanks and of different lengths stay apart when they are justified. */
  lemma {:induction false} JustifiedApart(d: Directive, s: string, t: string)
    requires ' ' !in s && ' ' !in t && |s| < |t|
    ensures Justified(d, s, ' ') != Justified(d, t, ' ')
  {
    hide Repeat;
    var x, y := Repeat(' ', d.width - |s|), Repeat(' ', d.width - |t|);
    RepeatIs(' ', d.width - |s|);
    if d.width <= |s| {
      assert |Justified(d, s, ' ')| < |Justified(d, t, ' ')|;
    } else if d.left {
      assert (s + x)[|s|] == ' ';
      assert (t + y)[|s|] == t[|s|] && t[|s|] in t;
    } else {
      assert (x + s)[|y|] == x[|y|] == ' ';
      assert (y + t)[|y|] == t[0] && t[0] in t;
    }
  }

  lemma {:induction false} WrittenHasNoBlanks(d: Directive, base: nat, upper: bool, v: int, zeros: int)
    requires base == 8 || base == 10 || base == 16
    ensures var text := Written(Head(d, base, v), zeros, Digits(Magnitude(v), base, upper));
            ' ' !in text && '+' !in text && 'X' !in text && (v >= 0 ==> '-' !in text)
  {
    hide Digits, Repeat;
    DigitChars(Magnitude(v), base, upper);
    RepeatIs('0', zeros);
  }

  lemma {:induction false} DigitChars(v: nat, base: nat, upper: bool)
    requires 2 <= base <= 16
    ensures forall c <- Digits(v, base, upper) :: '0' <= c <= '9' || 'A' <= c <= 'F' || 'a' <= c <= 'f'
  {
    hide Digit;
    if v < base {
      DigitChar(v, upper);
    } else {
      Quotient(v, base);
      DigitChar(v % base, upper);
      DigitChars(v / base, base, upper);
    }
  }

  lemma {:induction false} DigitChar(k: nat, upper: bool)
    requires k < 16
    ensures var c := Digit(k, upper); '0' <= c <= '9' || 'A' <= c <= 'F' || 'a' <= c <= 'f'
  {
  }

  /** Exactly when the code's numeric field is the standard's. */
  lemma {:induction false} FieldsAgreeExactly(d: Directive, base: nat, upper: bool, signed: bool, v: int)
    requires base == 8 || base == 10 || base == 16
    requires Proper(d)
    ensures NumberField(d, base, upper, v) == Field99(d, base, upper, signed, v)
            <==> Agrees(d, base, upper, signed, v)
  {
    hide Digits, NumberField, Field99, Justified, Repeat;
    CodeWrites(d, base, upper, v);
    WrittenHasNoBlanks(d, base, upper, v, Zeros(d, base, upper, v));
    if (d.signed && signed && v >= 0) || (d.sharp && base == 16 && upper && v != 0) {
      HeadsDiffer(d, base, upper, signed, v);
    } else if v == 0 && Given(d) && d.precision == 0 && !(d.sharp && base == 8) {
      NothingWritten(d, base, upper, signed);
    } else {
      StandardWrites(d, base, upper, signed, v);
      WrittenHasNoBlanks(d, base, upper, v, Zeros99(d, base, upper, v));
      SameZeros(d, base, upper, v);
      ZerosAgree(d, base, upper, signed, v);
    }
  }

  lemma {:induction false} ZerosAgree(d: Directive, base: nat, upper: bool, signed: bool, v: int)
    requires base == 8 || base == 10 || base == 16
    requires Proper(d)
    requires !(d.signed && signed && v >= 0) && !(d.sharp && base == 16 && upper && v != 0)
    requires !(v == 0 && Given(d) && d.precision == 0 && !(d.sharp && base == 8))
    ensures Zeros(d, base, upper, v) == Zeros99(d, base, upper, v) <==> Agrees(d, base, upper, signed, v)
  {
    hide Digits, Head;
  }

  lemma {:induction false} SameZeros(d: Directive, base: nat, upper: bool, v: int)
    requires base == 8 || base == 10 || base == 16
    ensures var head, digits := Head(d, base, v), Digits(Magnitude(v), base, upper);
            var j, k := Zeros(d, base, upper, v), Zeros99(d, base, upper, v);
            Justified(d, Written(head, j, digits), ' ') == Justified(d, Written(head, k, digits), ' ') <==> j == k
  {
    hide Digits, Justified, Repeat, Head;
    var head, digits := Head(d, base, v), Digits(Magnitude(v), base, upper);
    var j, k := Zeros(d, base, upper, v), Zeros99(d, base, upper, v);
    WrittenHasNoBlanks(d, base, upper, v, j);
    WrittenHasNoBlanks(d, base, upper, v, k);
    if j < k {
      JustifiedApart(d, Written(head, j, digits), Written(head, k, digits));
    } else if k < j {
      JustifiedApart(d, Written(head, k, digits), Written(head, j, digits));
    }
  }

  lemma {:induction false} InJustified(d: Directive, s: string, c: char)
    requires c != ' '
    ensures c in Justified(d, s, ' ') <==> c in s
  {
    hide Repeat;
    RepeatIs(' ', d.width - |s|);
  }

  lemma {:induction false} HeadsDiffer(d: Directive, base: nat, upper: bool, signed: bool, v: int)
    requires base == 8 || base == 10 || base == 16
    requires (d.signed && signed && v >= 0) || (d.sharp && base == 16 && upper && v != 0)
    ensures NumberField(d, base, upper, v) != Field99(d, base, upper, signed, v)
  {
    hide Digits, NumberField, Justified, Repeat, Digits99;
    var c := if d.signed && signed && v >= 0 then '+' else 'X';
    CodeWrites(d, base, upper, v);
    WrittenHasNoBlanks(d, base, upper, v, Zeros(d, base, upper, v));
    InJustified(d, Written(Head(d, base, v), Zeros(d, base, upper, v), Digits(Magnitude(v), base, upper)), c);
    var head := Sign99(d, signed, v) + Mark99(d, base, upper, v);
    assert c in head by {
      if c == '+' {
        assert head[0] == '+';
      } else {
        assert head[|head| - 1] == 'X';
      }
    }
    InJustified(d, head + Digits99(d, base, upper, v), c);
  }

  /** A zero with precision zero has no characters, but the code writes its digit. */
  lemma {:induction false} NothingWritten(d: Directive, base: nat, upper: bool, signed: bool)
    requires base == 8 || base == 10 || base == 16
    requires Given(d) && d.precision == 0 && !(d.sharp && base == 8) && !(d.signed && signed)
    ensures NumberField(d, base, upper, 0) != Field99(d, base, upper, signed, 0)
  {
    hide NumberField, Justified, Repeat, Digits;
    CodeWrites(d, base, upper, 0);
    ZeroDigits(base, upper);
    var text := Written(Head(d, base, 0), Zeros(d, base, upper, 0), "0");
    assert text[|text| - 1] == '0';
    InJustified(d, text, '0');
    RepeatIs('0', 0);
    InJustified(d, "", '0');
    assert Digits99(d, base, upper, 0) == "";
  }

  /** The common case, no alternative form and no plus sign: only a right-justified field with flag 0
      and a precision can differ, and does unless both come to the same number of digits. */
  lemma {:induction false} PlainFieldsAgreeExactly(d: Directive, base: nat, upper: bool, signed: bool, v: int)
    requires base == 8 || base == 10 || base == 16
    requires Proper(d) && !d.sharp && !d.signed && (v != 0 || !Given(d) || d.precision > 0)
    ensures var n := |Digits(Magnitude(v), base, upper)|;
            NumberField(d, base, upper, v) == Field99(d, base, upper, signed, v)
            <==> d.left || d.pad != '0' || !Given(d)
                 || Max(d.width - |Prefix(d, base, v)|, n) == Max(d.precision, n)
  {
    hide Digits, NumberField, Field99;
    FieldsAgreeExactly(d, base, upper, signed, v);
  }

  /** For every length modifier the value is the standard's, but for %hhd, which takes an unsigned
      char: there it is for exactly half the arguments. */
  lemma {:induction false} ValuesAgreeExactly(d: Directive, w: nat, signed: bool)
    ensures NumberArg(d, w, signed) == Value99(d, w, signed) <==> !(signed && SignedChar(d)) || w % 0x100 < 0x80
  {
  }

  /** A whole conversion: the output is the standard's exactly when value and field are. */
  lemma {:induction false} ConversionsAgreeExactly(p: Parsed)
    requires p.conv in "diouxXpry" && Proper(p.d)
    ensures var w, signed := NextWord(p.args), IsSigned(p.conv, p.d);
            Render(p).0 == Render99(p.conv, p.d, w)
            <==> (!(signed && SignedChar(p.d)) || w % 0x100 < 0x80)
                 && Agrees(Form(p.conv, p.d), Base(p.conv), p.conv == 'X', signed, ValueOf(p.conv, p.d, w))
  {
    hide NumberField, Field99, Agrees, NextWord;
    var d, w, signed := p.d, NextWord(p.args), IsSigned(p.conv, p.d);
    RenderedNumber(p);
    ValuesAgreeExactly(d, w, signed);
    FieldsAgreeExactly(Form(p.conv, d), Base(p.conv), p.conv == 'X', signed, ValueOf(p.conv, d, w));
    if signed && SignedChar(d) && w % 0x100 >= 0x80 {
      CharsDiffer(d, Base(p.conv), w);
    }
  }

  lemma {:induction false} RenderedNumber(p: Parsed)
    requires p.conv in "diouxXpry"
    ensures var d, w, signed := p.d, NextWord(p.args), IsSigned(p.conv, p.d);
            Render(p).0
            == NumberField(Form(p.conv, d), Base(p.conv), p.conv == 'X',
                           if p.conv == 'p' then w else NumberArg(d, w, signed))
  {
    hide NumberField, NumberArg, NextWord;
  }

  lemma {:induction false} CharsDiffer(d: Directive, base: nat, w: nat)
    requires (base == 10 || base == 16) && SignedChar(d) && w % 0x100 >= 0x80
    ensures NumberField(d, base, false, NumberArg(d, w, true)) != Field99(d, base, false, true, Value99(d, w, true))
  {
    hide Digits, NumberField, Justified, Repeat, Digits99;
    var u, v := NumberArg(d, w, true), Value99(d, w, true);
    CodeWrites(d, base, false, u);
    WrittenHasNoBlanks(d, base, false, u, Zeros(d, base, false, u));
    InJustified(d, Written(Head(d, base, u), Zeros(d, base, false, u), Digits(Magnitude(u), base, false)), '-');
    var head := Sign99(d, true, v) + Mark99(d, base, false, v);
    assert head[0] == '-';
    InJustified(d, head + Digits99(d, base, false, v), '-');
  }

  /** Read from the format: `%05.2d` of 7 gives 00007, where the standard has three blanks and 07. */
  lemma {:induction false} ZeroPrecisionExample(args: seq<Arg>)
    requires |args| > 0 && args[0] == Word(7)
    ensures var p := Parse("%05.2d", 1, Plain, args);
            && p.conv == 'd' && Proper(p.d)
            && Render(p).0 == "00007" && Render99(p.conv, p.d, NextWord(p.args)) == "   07"
  {
    var fmt := "%05.2d";
    var d := Plain.(pad := '0', width := 5, dot := true, precision := 2);
    hide Parse, NumberField, Field99;
    ReadFormat(fmt, args);
    CodeOfSeven(d);
    StandardOfSeven(d);
  }

  lemma {:induction false} Few(c: char)
    ensures Repeat(c, 1) == [c] && Repeat(c, 3) == [c, c, c] && Repeat(c, 4) == [c, c, c, c]
  {
    assert Repeat(c, 2) == [c, c];
  }

  lemma {:induction false} Seven()
    ensures Digits(7, 10, false) == "7"
  {
  }

  lemma {:induction false} CodeOfSeven(d: Directive)
    requires d == Plain.(pad := '0', width := 5, dot := true, precision := 2)
    ensures NumberField(d, 10, false, 7) == "00007"
  {
    hide Digits, Repeat;
    Seven();
    Few('0');
    RepeatIs(' ', 0);
  }

  lemma {:induction false} StandardOfSeven(d: Directive)
    requires d == Plain.(pad := '0', width := 5, dot := true, precision := 2)
    ensures Field99(d, 10, false, true, 7) == "   07"
  {
    hide Digits, Repeat;
    Seven();
    Few('0');
    Few(' ');
  }

  lemma {:induction false} ReadFormat(fmt: string, args: seq<Arg>)
    requires fmt == "%05.2d"
    ensures Parse(fmt, 1, Plain, args)
            == Parsed(Plain.(pad := '0', width := 5, dot := true, precision := 2), 'd', 6, args)
  {
    hide Parse, DigitsEnd, DecimalAt;
    var d1, d2 := Plain.(pad := '0'), Plain.(pad := '0', width := 5);
    var d3, d4 := d2.(dot := true), d2.(dot := true, precision := 2);
    OneDigit(fmt, 2);
    OneDigit(fmt, 4);
    ReadModifier(fmt, 1, Plain, args);
    ReadNumber(fmt, 2, d1, args);
    ReadModifier(fmt, 3, d2, args);
    ReadNumber(fmt, 4, d3, args);
    ReadConversion(fmt, 5, d4, args);
  }

  lemma {:induction false} ReadModifier(fmt: string, i: nat, d: Directive, args: seq<Arg>)
    requires i < |fmt| && IsModifier(fmt[i]) && !(fmt[i] == '0' && d.dot)
    ensures Parse(fmt, i, d, args) == Parse(fmt, i + 1, Modify(d, fmt[i]), args)
  {
  }

  lemma {:induction false} ReadNumber(fmt: string, i: nat, d: Directive, args: seq<Arg>)
    requires i < |fmt| && IsDigit(fmt[i]) && (fmt[i] != '0' || d.dot)
    ensures Parse(fmt, i, d, args)
            == Parse(fmt, DigitsEnd(fmt, i + 1), Numbered(d, DecimalAt(fmt, i)), args)
  {
    hide DecimalAt, DigitsEnd, Numbered;
  }

  lemma {:induction false} ReadConversion(fmt: string, i: nat, d: Directive, args: seq<Arg>)
    requires i < |fmt| && !IsModifier(fmt[i]) && !IsDigit(fmt[i]) && fmt[i] != '*'
    ensures Parse(fmt, i, d, args) == Parsed(d, fmt[i], i + 1, args)
  {
  }

  lemma {:induction false} OneDigit(fmt: string, i: nat)
    requires i + 1 < |fmt| && IsDigit(fmt[i]) && !IsDigit(fmt[i + 1])
    ensures DigitsEnd(fmt, i + 1) == i + 1 && DigitsEnd(fmt, i) == i + 1
    ensures DecimalAt(fmt, i) == fmt[i] as int - '0' as int
  {
    var run := fmt[i..i + 1];
    assert run[..|run| - 1] == "";
    assert Decimal(run) == 10 * Decimal(run[..0]) + (run[0] as int - '0' as int);
  }

  // ---------------------------------------------------------------- characters, strings, stars

  /** A field of at least the width: the text on the side asked for, and the pad character on the other. */
  lemma {:induction false} JustifiedIs(d: Directive, text: string, pad: char)
    ensures var field := Justified(d, text, pad);
            && |field| == Max(d.width, |text|)
            && (if d.left then field[..|text|] == text && forall k :: |text| <= k < |field| ==> field[k] == pad
                else field[|field| - |text|..] == text && forall k :: 0 <= k < |field| - |text| ==> field[k] == pad)
  {
    hide Repeat;
    RepeatIs(pad, d.width - |text|);
  }

  /** A character is written without regard to the width: it is the standard's field exactly when that
      has no room for more. */
  lemma {:induction false} CharactersAgreeExactly(p: Parsed, c: char)
    requires p.conv == 'c' && |p.args| > 0 && p.args[0].Word? && p.args[0].w % 256 == c as int
    ensures Render(p).0 == [c]
    ensures Render(p).0 == Justified(p.d, [c], ' ') <==> p.d.width <= 1
  {
    hide Justified, Render;
    RenderedCharacter(p, c);
    JustifiedIs(p.d, [c], ' ');
    if p.d.width <= 1 {
      var field := Justified(p.d, [c], ' ');
      assert |field| == 1 && field[..1] == field[0..] == field;
    }
  }

  lemma {:induction false} RenderedCharacter(p: Parsed, c: char)
    requires p.conv == 'c' && |p.args| > 0 && p.args[0].Word? && p.args[0].w % 256 == c as int
    ensures Render(p).0 == [c]
  {
    WordLowByte(p.args[0].w);
  }

  lemma {:induction false} WordLowByte(w: nat)
    ensures w % 0x1_0000_0000_0000_0000 % 256 == w % 256
  {
  }

  /** A string with a negative precision is cut to nothing, where the standard shows all of it. */
  function Text99(d: Directive, s: string): string {
    Justified(d, if Given(d) && d.precision < |s| then s[..d.precision] else s, d.pad)
  }

  lemma {:induction false} StringsAgreeExactly(d: Directive, s: string)
    requires d.pad == ' '
    ensures TextField(d, s) == Text99(d, s)
            <==> !(d.dot && d.precision < 0) || (|s| <= Max(0, d.width) && forall c <- s :: c == ' ')
  {
    hide Repeat;
    RepeatIs(' ', d.width);
    RepeatIs(' ', d.width - |s|);
    if d.dot && d.precision < 0 {
      var shown, all := Repeat(' ', d.width), Repeat(' ', d.width - |s|);
      assert s[..0] == "" && TextField(d, s) == shown;
      var field := if d.left then s + all else all + s;
      assert Text99(d, s) == field;
      if field == shown {
        forall c | c in s
          ensures c == ' '
        {
          var k :| 0 <= k < |s| && s[k] == c;
          var at := if d.left then k else |all| + k;
          assert s[k] == field[at] == shown[at];
        }
      }
      if |s| <= Max(0, d.width) && forall c <- s :: c == ' ' {
        assert |field| == |shown|;
        forall k | 0 <= k < |field|
          ensures field[k] == ' '
        {
          var at := if d.left then k else k - |all|;
          if 0 <= at < |s| {
            assert field[k] == s[at] && s[at] in s;
          } else {
            assert field[k] == all[if d.left then k - |s| else k];
          }
        }
      }
    } else {
      assert s[..|s|] == s;
    }
  }

  /** What %s writes: the string, or "(null)" for a null pointer, up to the precision if one is given, in
      a field filled with the pad character, which is a zero if the flag 0 is given. */
  lemma {:induction false} StringsAre(p: Parsed)
    requires p.conv == 's' && |p.args| > 0 && !p.args[0].Word?
    ensures var s := if p.args[0].Text? then p.args[0].s else "(null)";
            var n := if p.d.dot && p.d.precision < |s| then Max(0, p.d.precision) else |s|;
            var field := Render(p).0;
            && |field| == Max(p.d.width, n)
            && (if p.d.left then field[..n] == s[..n] && forall k :: n <= k < |field| ==> field[k] == p.d.pad
                else field[|field| - n..] == s[..n] && forall k :: 0 <= k < |field| - n ==> field[k] == p.d.pad)
  {
    hide Justified;
    var s := if p.args[0].Text? then p.args[0].s else "(null)";
    var n := if p.d.dot && p.d.precision < |s| then Max(0, p.d.precision) else |s|;
    assert s[..|s|] == s;
    JustifiedIs(p.d, s[..n], p.d.pad);
  }

  /** Letters among the digits are upper-case for %X and lower-case otherwise. */
  lemma {:induction false} DigitCase(v: nat, base: nat, upper: bool)
    requires 2 <= base <= 16
    ensures forall c <- Digits(v, base, upper) ::
              !('0' <= c <= '9') ==> if upper then 'A' <= c <= 'F' else 'a' <= c <= 'f'
  {
    hide Digit;
    if v < base {
      CaseOf(v, upper);
    } else {
      Quotient(v, base);
      CaseOf(v % base, upper);
      DigitCase(v / base, base, upper);
    }
  }

  lemma {:induction false} CaseOf(k: nat, upper: bool)
    requires k < 16
    ensures var c := Digit(k, upper); !('0' <= c <= '9') ==> if upper then 'A' <= c <= 'F' else 'a' <= c <= 'f'
  {
  }

  // ---------------------------------------------------------------- stored counts

  /** What %n stores: the count, in the type that the length modifier names. */
  function Store99(d: Directive, count: nat): Store {
    var m := Modulus99(LengthOf(d));
    Store(if m == 0x100 then 1 else if m == 0x1_0000 then 2 else if m == 0x1_0000_0000 then 4 else 8, count % m)
  }

  /** The code does not look at t here: %tn stores an int, where the standard has a ptrdiff_t. */
  lemma {:induction false} CountsAgreeExactly(p: Parsed, count: nat)
    requires p.conv == 'n'
    ensures |StoredBy(p, count)| == 1
    ensures StoredBy(p, count)[0] == Store99(p.d, count) <==> !(LengthOf(p.d) == T && !p.d.l && !p.d.z)
  {
  }

  /** A negative width toggles left-justification, where the standard turns it on. */
  function Star99(d: Directive, args: seq<Arg>): Directive {
    var n := Signed(NextWord(args), 0x1_0000_0000);
    if d.dot then d.(precision := n) else if n < 0 then d.(left := true, width := -n) else d.(width := n)
  }

  lemma {:induction false} StarsAgreeExactly(d: Directive, args: seq<Arg>)
    ensures Star(d, args) == Star99(d, args)
            <==> !(d.left && !d.dot && Signed(NextWord(args), 0x1_0000_0000) < 0)
  {
  }
}
