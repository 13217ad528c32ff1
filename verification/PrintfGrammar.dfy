/** The directives of C99 section 7.19.6.1 as a grammar, without the flag ' ' and the modifier L, which the
    code does not know, and with q for ll: each is read with exactly the flags, numbers, length modifier
    and conversion that are written, and its output is said for every one. */
module PrintfGrammar {
  import opened PrintfSpec
  import opened PrintfC99
  import opened PrintfReading

  /** A width or precision: none, a decimal number, or '*'. */
  datatype Amount = Absent | Number(digits: string) | FromArgument

  datatype Spec = Spec(flags: string, width: Amount, precision: Amount, length: string, conv: char)

  predicate AllDigits(s: string) { forall k :: 0 <= k < |s| ==> '0' <= s[k] <= '9' }

  /** What the grammar allows. A width does not begin with a zero, which would be a flag; a precision
      may have no digits. */
  predicate Allowed(sp: Spec) {
    && (forall k :: 0 <= k < |sp.flags| ==> sp.flags[k] in "-+#0")
    && (sp.width.Number? ==> sp.width.digits != "" && AllDigits(sp.width.digits) && sp.width.digits[0] != '0')
    && (sp.precision.Number? ==> AllDigits(sp.precision.digits))
    && sp.length in ["", "hh", "h", "l", "ll", "q", "j", "z", "t"]
    && !IsPart(sp.conv)
  }

  function AmountText(a: Amount): string {
    match a
    case Absent => ""
    case Number(digits) => digits
    case FromArgument => "*"
  }

  function PrecisionText(a: Amount): string { if a.Absent? then "" else "." + AmountText(a) }

  /** The directive behind its '%'. */
  function Body(sp: Spec): string {
    sp.flags + (AmountText(sp.width) + (PrecisionText(sp.precision) + (sp.length + [sp.conv])))
  }

  function Format(sp: Spec): string { "%" + Body(sp) }

  /** Arguments taken by a width or precision, and the value it comes to. */
  function StarsOf(a: Amount): nat { if a.FromArgument? then 1 else 0 }

  function AmountOf(a: Amount, args: seq<Arg>): int {
    match a
    case Absent => 0
    case Number(digits) => Value(digits, 10)
    case FromArgument => Signed(NextWord(args), 0x1_0000_0000)
  }

  /** The directive as written: a negative width from an argument is its absolute value, with
      left-justification the other way round. */
  function Meant(sp: Spec, args: seq<Arg>): Directive {
    var w := AmountOf(sp.width, args);
    var n := sp.length;
    Directive(('-' in sp.flags) != (w < 0), '#' in sp.flags, '+' in sp.flags, !sp.precision.Absent?,
              if '0' in sp.flags then '0' else ' ',
              if w < 0 then -w else w, AmountOf(sp.precision, Drop(args, StarsOf(sp.width))),
              n == "l", n == "ll" || n == "q", n == "h", n == "hh", n == "j", n == "t", n == "z")
  }

  // ---------------------------------------------------------------- reading, piece by piece

  /** The directive with the flags set that are written. */
  function Flagged(d: Directive, flags: string): Directive {
    d.(left := d.left || '-' in flags, sharp := d.sharp || '#' in flags, signed := d.signed || '+' in flags,
       pad := if '0' in flags then '0' else d.pad)
  }

  /** What is read from `rest` on, when `pre` and `rest` stand behind each other. */
  function ReadAt(pre: string, rest: string, d: Directive, args: seq<Arg>): Parsed {
    Parse(pre + rest, |pre|, d, args)
  }

  lemma {:induction false} Moved(pre: string, piece: string, rest: string)
    ensures pre + (piece + rest) == (pre + piece) + rest
    ensures |pre + piece| == |pre| + |piece|
  {
  }

  lemma {:induction false} OneFlag(d: Directive, c: char, more: string)
    requires c in "-+#0" && !d.dot
    ensures IsModifier(c) && Flagged(Modify(d, c), more) == Flagged(d, [c] + more) && !Modify(d, c).dot
  {
    hide Modify, Flagged, WithFlag;
    MinusIs(d);
    PlusIs(d);
    SharpIs(d);
    ZeroIs(d);
    FlaggedOne(d, c);
    FlaggedMore(d, c, more);
  }

  predicate IsFlag(c: char) { c == '-' || c == '+' || c == '#' || c == '0' }

  function WithFlag(d: Directive, c: char): Directive {
    d.(left := d.left || c == '-', sharp := d.sharp || c == '#', signed := d.signed || c == '+',
       pad := if c == '0' then '0' else d.pad)
  }

  lemma {:induction false} MinusIs(d: Directive)
    ensures Modify(d, '-') == d.(left := true)
    ensures WithFlag(d, '-') == d.(left := true)
  {
  }

  lemma {:induction false} PlusIs(d: Directive)
    ensures Modify(d, '+') == d.(signed := true)
    ensures WithFlag(d, '+') == d.(signed := true)
  {
  }

  lemma {:induction false} SharpIs(d: Directive)
    ensures Modify(d, '#') == d.(sharp := true)
    ensures WithFlag(d, '#') == d.(sharp := true)
  {
  }

  lemma {:induction false} ZeroIs(d: Directive)
    ensures Modify(d, '0') == d.(pad := '0')
    ensures WithFlag(d, '0') == d.(pad := '0')
  {
  }

  lemma {:induction false} FlaggedOne(d: Directive, c: char)
    ensures Flagged(d, [c]) == WithFlag(d, c)
  {
    var s := [c];
    assert forall x :: x in s <==> x == c;
  }

  lemma {:induction false} FlaggedMore(d: Directive, c: char, more: string)
    ensures Flagged(Flagged(d, [c]), more) == Flagged(d, [c] + more)
  {
    FirstOrLater(c, more, '-');
    FirstOrLater(c, more, '#');
    FirstOrLater(c, more, '+');
    FirstOrLater(c, more, '0');
  }

  lemma {:induction false} FirstOrLater(c: char, more: string, x: char)
    ensures x in [c] + more <==> x == c || x in more
  {
  }

  lemma {:induction false} NoFlags(d: Directive)
    ensures Flagged(d, "") == d
  {
  }

  lemma {:induction false} ReadFlags(pre: string, flags: string, rest: string, d: Directive, args: seq<Arg>)
    requires !d.dot && forall k :: 0 <= k < |flags| ==> flags[k] in "-+#0"
    ensures ReadAt(pre, flags + rest, d, args) == ReadAt(pre + flags, rest, Flagged(d, flags), args)
    decreases |flags|
  {
    hide Parse, Modify, Flagged, IsModifier;
    if flags == "" {
      NoFlags(d);
      assert flags + rest == rest && pre + flags == pre;
    } else {
      var c, more := flags[0], flags[1..];
      OneFlag(d, c, more);
      assert flags == [c] + more;
      var fmt := pre + (flags + rest);
      assert fmt[|pre|] == c;
      ReadModifier(fmt, |pre|, d, args);
      assert fmt == (pre + [c]) + (more + rest);
      ReadFlags(pre + [c], more, rest, Modify(d, c), args);
      assert pre + flags == (pre + [c]) + more;
    }
  }

  lemma {:induction false} DecimalIsValue(s: string)
    requires AllDigits(s)
    ensures Decimal(s) == Value(s, 10)
  {
    if |s| > 0 {
      DecimalIsValue(s[..|s| - 1]);
      assert DigitValue(s[|s| - 1]) == s[|s| - 1] as int - '0' as int;
    }
  }

  /** Where a number ends that is followed by something else. */
  lemma {:induction false} NumberEnds(pre: string, digits: string, rest: string)
    requires AllDigits(digits) && rest != "" && !IsDigit(rest[0])
    ensures DigitsEnd(pre + (digits + rest), |pre|) == |pre| + |digits|
    decreases |digits|
  {
    var fmt := pre + (digits + rest);
    if digits == "" {
      assert fmt[|pre|] == rest[0];
    } else {
      assert fmt[|pre|] == digits[0];
      NumberEnds(pre + [digits[0]], digits[1..], rest);
      assert fmt == (pre + [digits[0]]) + (digits[1..] + rest);
    }
  }

  lemma {:induction false} ReadDigits(pre: string, digits: string, rest: string, d: Directive, args: seq<Arg>)
    requires AllDigits(digits) && rest != "" && !IsDigit(rest[0])
    requires digits != "" && (digits[0] != '0' || d.dot)
    ensures ReadAt(pre, digits + rest, d, args) == ReadAt(pre + digits, rest, Numbered(d, Value(digits, 10)), args)
  {
    hide Parse, Numbered, DigitsEnd, Decimal, Value, DigitValue;
    var fmt := pre + (digits + rest);
    assert fmt[|pre|] == digits[0] && IsDigit(digits[0]);
    NumberEnds(pre, digits, rest);
    EndBehindFirst(fmt, |pre|);
    ReadNumber(fmt, |pre|, d, args);
    assert fmt[|pre|..|pre| + |digits|] == digits;
    DecimalIsValue(digits);
    Moved(pre, digits, rest);
  }

  lemma {:induction false} EndBehindFirst(fmt: string, i: nat)
    requires i < |fmt| && IsDigit(fmt[i])
    ensures DigitsEnd(fmt, i) == DigitsEnd(fmt, i + 1)
  {
  }

  /** The directive with this width, by which a negative one turns the justification round. */
  function WithWidth(d: Directive, w: int): Directive {
    d.(left := d.left != (w < 0), width := if w < 0 then -w else w)
  }

  lemma {:induction false} NegativeStar(d: Directive, args: seq<Arg>, n: int)
    requires !d.dot && n == Signed(NextWord(args), 0x1_0000_0000) && n < 0
    ensures PrintfSpec.Star(d, args) == d.(left := !d.left, width := -n)
    ensures WithWidth(d, n) == d.(left := !d.left, width := -n)
  {
    hide NextWord, Signed;
  }

  lemma {:induction false} OtherStar(d: Directive, args: seq<Arg>, n: int)
    requires !d.dot && n == Signed(NextWord(args), 0x1_0000_0000) && n >= 0
    ensures PrintfSpec.Star(d, args) == d.(width := n)
    ensures WithWidth(d, n) == d.(width := n)
  {
    hide NextWord, Signed;
  }

  lemma {:induction false} StarWidth(d: Directive, args: seq<Arg>)
    requires !d.dot
    ensures PrintfSpec.Star(d, args) == WithWidth(d, Signed(NextWord(args), 0x1_0000_0000))
  {
    hide NextWord, Signed, PrintfSpec.Star, WithWidth;
    var n := Signed(NextWord(args), 0x1_0000_0000);
    if n < 0 {
      NegativeStar(d, args, n);
    } else {
      OtherStar(d, args, n);
    }
  }

  lemma {:induction false} DigitsWidth(d: Directive, digits: string)
    requires !d.dot && AllDigits(digits)
    ensures Numbered(d, Value(digits, 10)) == WithWidth(d, Value(digits, 10))
  {
    hide Decimal, Value;
    DecimalIsValue(digits);
  }

  lemma {:induction false} ReadWidth(pre: string, a: Amount, rest: string, d: Directive, args: seq<Arg>)
    requires !d.dot && d.width == 0 && rest != "" && !IsDigit(rest[0])
    requires a.Number? ==> a.digits != "" && AllDigits(a.digits) && a.digits[0] != '0'
    ensures ReadAt(pre, AmountText(a) + rest, d, args)
            == ReadAt(pre + AmountText(a), rest, WithWidth(d, AmountOf(a, args)), Drop(args, StarsOf(a)))
  {
    hide Parse, WithWidth, Numbered, PrintfSpec.Star, Value, NextWord, IsDigit, AllDigits;
    DropMore(args, 0, 0);
    match a
    case Absent =>
      NoWidth(d);
      assert "" + rest == rest && pre + "" == pre;
    case Number(digits) =>
      ReadDigits(pre, digits, rest, d, args);
      DigitsWidth(d, digits);
    case FromArgument =>
      assert (pre + ("*" + rest))[|pre|] == '*';
      ReadStar(pre + ("*" + rest), |pre|, d, args);
      StarWidth(d, args);
      Moved(pre, "*", rest);
  }

  lemma {:induction false} NoWidth(d: Directive)
    requires d.width == 0
    ensures WithWidth(d, 0) == d
  {
  }

  /** The directive with or without a precision. */
  function WithPrecision(d: Directive, given: bool, n: int): Directive { d.(dot := given, precision := n) }

  lemma {:induction false} Dotted(d: Directive)
    ensures IsModifier('.') && Modify(d, '.') == d.(dot := true)
  {
  }

  lemma {:induction false} StarPrecision(d: Directive, args: seq<Arg>)
    ensures PrintfSpec.Star(d.(dot := true), args) == WithPrecision(d, true, Signed(NextWord(args), 0x1_0000_0000))
  {
    hide NextWord;
  }

  lemma {:induction false} DigitsPrecision(d: Directive, n: int)
    ensures Numbered(d.(dot := true), n) == WithPrecision(d, true, n)
  {
  }

  lemma {:induction false} NoPrecision(d: Directive)
    requires !d.dot && d.precision == 0
    ensures WithPrecision(d, false, 0) == d && WithPrecision(d, true, 0) == d.(dot := true)
  {
  }

  lemma {:induction false} NoAmount(args: seq<Arg>)
    ensures AmountOf(Absent, args) == 0
  {
  }

  lemma {:induction false} ReadPrecision(pre: string, a: Amount, rest: string, d: Directive, args: seq<Arg>)
    requires !d.dot && d.precision == 0 && rest != "" && !IsDigit(rest[0])
    requires a.Number? ==> AllDigits(a.digits)
    ensures ReadAt(pre, PrecisionText(a) + rest, d, args)
            == ReadAt(pre + PrecisionText(a), rest, WithPrecision(d, !a.Absent?, AmountOf(a, args)),
                      Drop(args, StarsOf(a)))
  {
    hide Parse, WithPrecision, Numbered, PrintfSpec.Star, Value, NextWord, IsDigit, AllDigits, Modify, IsModifier,
         AmountText, AmountOf, ReadAt, Drop;
    NoPrecision(d);
    NoAmount(args);
    DropMore(args, 0, 0);
    if a.Absent? {
      assert PrecisionText(a) == "" && "" + rest == rest && pre + "" == pre;
    } else {
      ReadDot(pre, AmountText(a), rest, d, args);
      ReadAmountBehindDot(pre + ".", a, rest, d, args);
    }
  }

  lemma {:induction false} ReadDot(pre: string, text: string, rest: string, d: Directive, args: seq<Arg>)
    ensures ReadAt(pre, ("." + text) + rest, d, args) == ReadAt(pre + ".", text + rest, d.(dot := true), args)
    ensures pre + ("." + text) == (pre + ".") + text
  {
    hide Parse, Modify, IsModifier;
    var fmt := pre + (("." + text) + rest);
    assert fmt[|pre|] == '.';
    Dotted(d);
    ReadModifier(fmt, |pre|, d, args);
    assert fmt == (pre + ".") + (text + rest);
  }

  lemma {:induction false} ReadAmountBehindDot(pre: string, a: Amount, rest: string, d: Directive, args: seq<Arg>)
    requires !d.dot && d.precision == 0 && rest != "" && !IsDigit(rest[0]) && !a.Absent?
    requires a.Number? ==> AllDigits(a.digits)
    ensures ReadAt(pre, AmountText(a) + rest, d.(dot := true), args)
            == ReadAt(pre + AmountText(a), rest, WithPrecision(d, true, AmountOf(a, args)), Drop(args, StarsOf(a)))
  {
    hide Parse, WithPrecision, Numbered, PrintfSpec.Star, NextWord, IsDigit, AllDigits;
    DropMore(args, 0, 0);
    if a.FromArgument? {
      assert (pre + ("*" + rest))[|pre|] == '*';
      ReadStar(pre + ("*" + rest), |pre|, d.(dot := true), args);
      StarPrecision(d, args);
      Moved(pre, "*", rest);
    } else if a.digits == "" {
      NoPrecision(d);
      assert "" + rest == rest && pre + "" == pre;
    } else {
      ReadDigits(pre, a.digits, rest, d.(dot := true), args);
      DigitsPrecision(d, Value(a.digits, 10));
    }
  }

  // ---------------------------------------------------------------- length modifiers

  function WithLength(d: Directive, n: string): Directive {
    d.(l := n == "l", q := n == "ll" || n == "q", h := n == "h", c := n == "hh",
       j := n == "j", t := n == "t", z := n == "z")
  }

  predicate NoLengthYet(d: Directive) { !d.l && !d.q && !d.h && !d.c && !d.j && !d.t && !d.z }

  lemma {:induction false} ReadOne(pre: string, c: char, rest: string, d: Directive, args: seq<Arg>)
    requires IsModifier(c) && c != '0'
    ensures ReadAt(pre, [c] + rest, d, args) == ReadAt(pre + [c], rest, Modify(d, c), args)
  {
    hide Parse, Modify, IsModifier;
    var fmt := pre + ([c] + rest);
    assert fmt[|pre|] == c;
    ReadModifier(fmt, |pre|, d, args);
    Moved(pre, [c], rest);
  }

  lemma {:induction false} ModifierL(d: Directive)
    requires NoLengthYet(d)
    ensures Modify(d, 'l') == d.(l := true) == WithLength(d, "l")
  {
  }

  lemma {:induction false} ModifierQ(d: Directive)
    requires NoLengthYet(d)
    ensures Modify(d, 'q') == d.(q := true) == WithLength(d, "q")
  {
  }

  lemma {:induction false} ModifierH(d: Directive)
    requires NoLengthYet(d)
    ensures Modify(d, 'h') == d.(h := true) == WithLength(d, "h")
  {
  }

  lemma {:induction false} ModifierJ(d: Directive)
    requires NoLengthYet(d)
    ensures Modify(d, 'j') == d.(j := true) == WithLength(d, "j")
  {
  }

  lemma {:induction false} ModifierT(d: Directive)
    requires NoLengthYet(d)
    ensures Modify(d, 't') == d.(t := true) == WithLength(d, "t")
  {
  }

  lemma {:induction false} ModifierZ(d: Directive)
    requires NoLengthYet(d)
    ensures Modify(d, 'z') == d.(z := true) == WithLength(d, "z")
  {
  }

  lemma {:induction false} ModifierLL(d: Directive)
    requires NoLengthYet(d)
    ensures Modify(d.(l := true), 'l') == d.(q := true) == WithLength(d, "ll")
  {
  }

  lemma {:induction false} ModifierHH(d: Directive)
    requires NoLengthYet(d)
    ensures Modify(d.(h := true), 'h') == d.(c := true) == WithLength(d, "hh")
  {
  }

  lemma {:induction false} NoModifier(d: Directive)
    requires NoLengthYet(d)
    ensures WithLength(d, "") == d
  {
  }

  lemma {:induction false} Modifiers()
    ensures IsModifier('l') && IsModifier('q') && IsModifier('h')
    ensures IsModifier('j') && IsModifier('t') && IsModifier('z')
  {
  }

  lemma {:induction false} ReadLength(pre: string, n: string, rest: string, d: Directive, args: seq<Arg>)
    requires n in ["", "hh", "h", "l", "ll", "q", "j", "z", "t"] && NoLengthYet(d)
    ensures ReadAt(pre, n + rest, d, args) == ReadAt(pre + n, rest, WithLength(d, n), args)
  {
    hide ReadAt, Modify, WithLength, IsModifier, NoLengthYet;
    Modifiers();
    if n == "" {
      NoModifier(d);
      assert n + rest == rest && pre + n == pre;
    } else if n == "hh" {
      ModifierH(d);
      ModifierHH(d);
      ReadTwo(pre, 'h', rest, d, args);
    } else if n == "ll" {
      ModifierL(d);
      ModifierLL(d);
      ReadTwo(pre, 'l', rest, d, args);
    } else {
      var c := n[0];
      assert n == [c];
      ReadOne(pre, c, rest, d, args);
      OneModifier(d, c);
    }
  }

  lemma {:induction false} OneModifier(d: Directive, c: char)
    requires NoLengthYet(d) && c in "hlqjzt"
    ensures Modify(d, c) == WithLength(d, [c])
  {
    hide Modify, WithLength;
    ModifierH(d);
    ModifierL(d);
    ModifierQ(d);
    ModifierJ(d);
    ModifierZ(d);
    ModifierT(d);
  }

  lemma {:induction false} ReadTwo(pre: string, c: char, rest: string, d: Directive, args: seq<Arg>)
    requires IsModifier(c) && c != '0'
    ensures ReadAt(pre, [c, c] + rest, d, args) == ReadAt(pre + [c, c], rest, Modify(Modify(d, c), c), args)
  {
    hide ReadAt, Modify, IsModifier;
    ReadOne(pre, c, [c] + rest, d, args);
    ReadOne(pre + [c], c, rest, Modify(d, c), args);
    assert [c, c] + rest == [c] + ([c] + rest);
    assert pre + [c, c] == (pre + [c]) + [c];
  }

  // ---------------------------------------------------------------- the whole directive

  lemma {:induction false} TailStarts(n: string, conv: char)
    requires n in ["", "hh", "h", "l", "ll", "q", "j", "z", "t"] && !IsPart(conv)
    ensures n + [conv] != "" && !IsDigit((n + [conv])[0])
  {
    PartKinds(conv);
  }

  lemma {:induction false} PrecisionStarts(a: Amount, rest: string)
    requires rest != "" && !IsDigit(rest[0])
    ensures PrecisionText(a) + rest != "" && !IsDigit((PrecisionText(a) + rest)[0])
  {
  }

  lemma {:induction false} ReadEnd(pre: string, conv: char, d: Directive, args: seq<Arg>)
    requires !IsPart(conv)
    ensures ReadAt(pre, [conv], d, args) == Parsed(d, conv, |pre| + 1, args)
  {
    hide Parse, IsPart;
    PartKinds(conv);
    assert (pre + [conv])[|pre|] == conv;
    ReadConversion(pre + [conv], |pre|, d, args);
  }

  /** The pieces put together. */
  lemma {:induction false} MeantIs(sp: Spec, args: seq<Arg>)
    ensures var d := WithWidth(Flagged(Plain, sp.flags), AmountOf(sp.width, args));
            var n := AmountOf(sp.precision, Drop(args, StarsOf(sp.width)));
            Meant(sp, args) == WithLength(WithPrecision(d, !sp.precision.Absent?, n), sp.length)
  {
    hide AmountOf, Drop;
  }

  lemma {:induction false} StillUnset(flags: string, w: int)
    ensures var d := Flagged(Plain, flags); !d.dot && d.width == 0
    ensures var d := WithWidth(Flagged(Plain, flags), w); !d.dot && d.precision == 0
  {
  }

  lemma {:induction false} LengthStillUnset(flags: string, w: int, given: bool, n: int)
    ensures NoLengthYet(WithPrecision(WithWidth(Flagged(Plain, flags), w), given, n))
  {
  }

  /** Every directive of the grammar is read as it is written, and takes one argument for each '*'. */
  lemma {:induction false} ReadAsWritten(sp: Spec, args: seq<Arg>)
    requires Allowed(sp)
    ensures Parse(Format(sp), 1, Plain, args)
            == Parsed(Meant(sp, args), sp.conv, |Format(sp)|, Drop(args, StarsOf(sp.width) + StarsOf(sp.precision)))
  {
    hide Parse, ReadAt, Meant, Flagged, WithWidth, WithPrecision, WithLength, AmountOf, Drop, AmountText, PrecisionText,
         IsDigit, IsPart, NoLengthYet, AllDigits;
    var end := sp.length + [sp.conv];
    var tail := PrecisionText(sp.precision) + end;
    var w, rest := AmountOf(sp.width, args), Drop(args, StarsOf(sp.width));
    var one := Flagged(Plain, sp.flags);
    var two := WithWidth(one, w);
    var three := WithPrecision(two, !sp.precision.Absent?, AmountOf(sp.precision, rest));
    var last := Drop(rest, StarsOf(sp.precision));
    TailStarts(sp.length, sp.conv);
    PrecisionStarts(sp.precision, end);
    StillUnset(sp.flags, w);
    LengthStillUnset(sp.flags, w, !sp.precision.Absent?, AmountOf(sp.precision, rest));
    var at1 := "%" + sp.flags;
    var at2 := at1 + AmountText(sp.width);
    var at3 := at2 + PrecisionText(sp.precision);
    ReadFlags("%", sp.flags, AmountText(sp.width) + tail, Plain, args);
    ReadWidth(at1, sp.width, tail, one, args);
    ReadPrecision(at2, sp.precision, end, two, rest);
    ReadLength(at3, sp.length, [sp.conv], three, last);
    ReadEnd(at3 + sp.length, sp.conv, WithLength(three, sp.length), last);
    MeantIs(sp, args);
    DropMore(args, StarsOf(sp.width), StarsOf(sp.precision));
    FormatRead(sp, args);
  }

  lemma {:induction false} FormatRead(sp: Spec, args: seq<Arg>)
    ensures Parse(Format(sp), 1, Plain, args) == ReadAt("%", Body(sp), Plain, args)
    ensures |Format(sp)| == |"%" + sp.flags + AmountText(sp.width) + PrecisionText(sp.precision) + sp.length| + 1
  {
    hide Parse, AmountText, PrecisionText;
  }

  // ---------------------------------------------------------------- its output

  function StarCount(sp: Spec): nat { StarsOf(sp.width) + StarsOf(sp.precision) }

  lemma {:induction false} SameLength(args: seq<Arg>, m: nat, n: nat)
    requires Drop(args, m) == Drop(args, n) && m < |args| && n < |args|
    ensures m == n
  {
  }

  /** Where the one directive of such a format ends, and how many '*' it has. */
  lemma {:induction false} Places(sp: Spec)
    requires Allowed(sp) && sp.conv != NUL
    ensures ConversionAt(Format(sp), 1) == |Format(sp)| - 1 && Format(sp)[|Format(sp)| - 1] == sp.conv
    ensures StarsAt(Format(sp), 1) == StarCount(sp)
  {
    hide Parse, ConversionAt, StarsAt, Drop, Meant, Allowed;
    var m, n := StarsAt(Format(sp), 1), StarCount(sp);
    var many := seq(m + n + 1, _ => NoText);
    ReadAsWritten(sp, many);
    ParseIs(Format(sp), 1, Plain, many);
    SameLength(many, m, n);
  }

  /** A directive as a format of its own: it takes one argument for each '*' and one more unless it is
      "%%", and writes what its conversion renders of the directive as written and the argument behind
      those of the '*'. */
  lemma {:induction false} OneDirective(sp: Spec, args: seq<Arg>, count: nat)
    requires Allowed(sp) && sp.conv in "%cdinoprsuXxy"
    ensures Complete(Format(sp), 0) && Needs(Format(sp), 0) == StarCount(sp) + if sp.conv == '%' then 0 else 1
    ensures var p := Parsed(Meant(sp, args), sp.conv, |Format(sp)|, Drop(args, StarCount(sp)));
            && Closed(Format(sp), 0, args) && IsConversion(p.conv)
            && Output(Format(sp), 0, args) == Render(p).0
            && Stores(Format(sp), 0, args, count) == StoredBy(p, count)
  {
    hide Parse, ConversionAt, StarsAt, Drop, Meant, Allowed, Render, StoredBy, Body, Closed, Output, Stores, IsPart;
    var fmt := Format(sp);
    assert fmt[0] == '%' && sp.conv != NUL;
    Places(sp);
    NothingNeeded(fmt, args);
    assert Complete(fmt, 0);
    ReadAsWritten(sp, args);
    DirectiveStep(fmt, 0, args, count);
    CompleteIsClosed(fmt, 0, args);
    var p := Parse(fmt, 1, Plain, args);
    AtEnd(fmt, Render(p).1, count + |Render(p).0|);
  }

  lemma {:induction false} MeantIsProper(sp: Spec, args: seq<Arg>)
    ensures Proper(Meant(sp, args))
  {
    hide Value, NextWord;
  }

  lemma {:induction false} ArgumentBehind(args: seq<Arg>, n: nat, w: nat)
    requires n < |args| && args[n] == Word(w) && w < 0x1_0000_0000_0000_0000
    ensures NextWord(Drop(args, n)) == w
  {
  }

  /** Numbers: for every directive of the grammar with a numeric conversion, and every argument behind
      those of its '*', the output is the standard's exactly when the value and the field are. */
  lemma {:induction false} NumbersAgreeExactly(sp: Spec, args: seq<Arg>, w: nat)
    requires Allowed(sp) && sp.conv in "diouxXpry" && w < 0x1_0000_0000_0000_0000
    requires |args| > StarCount(sp) && args[StarCount(sp)] == Word(w)
    ensures Closed(Format(sp), 0, args)
    ensures var d := Meant(sp, args);
            var signed := IsSigned(sp.conv, d);
            Output(Format(sp), 0, args) == Render99(sp.conv, d, w)
            <==> (!(signed && SignedChar(d)) || w % 0x100 < 0x80)
                 && Agrees(Form(sp.conv, d), Base(sp.conv), sp.conv == 'X', signed, ValueOf(sp.conv, d, w))
  {
    hide Meant, Allowed, Render, Body, Format, Closed, Output, Stores, Agrees, Render99, StoredBy, ValueOf, Form,
         Proper, Drop, NextWord, StarCount, IsSigned, SignedChar;
    OneDirective(sp, args, 0);
    MeantIsProper(sp, args);
    ArgumentBehind(args, StarCount(sp), w);
    ConversionsAgreeExactly(Parsed(Meant(sp, args), sp.conv, |Format(sp)|, Drop(args, StarCount(sp))));
  }

  /** The other conversions: a percent sign, a character, a string, a stored count. */
  lemma {:induction false} TextsAre(sp: Spec, args: seq<Arg>, count: nat)
    requires Allowed(sp) && sp.conv in "%cns"
    requires sp.conv != '%' ==> |args| > StarCount(sp)
    ensures Closed(Format(sp), 0, args)
    ensures sp.conv == '%' ==> Output(Format(sp), 0, args) == "%" && Stores(Format(sp), 0, args, count) == []
    ensures sp.conv == 'c' && args[StarCount(sp)].Word? ==>
              Output(Format(sp), 0, args) == [(args[StarCount(sp)].w % 256) as char]
    ensures sp.conv == 's' && !args[StarCount(sp)].Word? ==>
              var s := if args[StarCount(sp)].Text? then args[StarCount(sp)].s else "(null)";
              Output(Format(sp), 0, args) == TextField(Meant(sp, args), s)
    ensures sp.conv == 'n' ==>
              && Output(Format(sp), 0, args) == ""
              && Stores(Format(sp), 0, args, count) == [CountStored(Meant(sp, args), count)]
  {
    hide Meant, Allowed, Body, Closed, Output, Stores, TextField, CountStored;
    OneDirective(sp, args, count);
    var p := Parsed(Meant(sp, args), sp.conv, |Format(sp)|, Drop(args, StarCount(sp)));
    if sp.conv == 'c' && args[StarCount(sp)].Word? {
      RenderedCharacter(p, (args[StarCount(sp)].w % 256) as char);
    }
  }

  /** Text without '%' is written as it is. */
  lemma {:induction false} TextIsText(text: string, i: nat, args: seq<Arg>, count: nat)
    requires '%' !in text && i <= |text|
    ensures Closed(text, i, args) && Output(text, i, args) == text[i..] && Stores(text, i, args, count) == []
    decreases |text| - i
  {
    hide Closed, Output, Stores;
    if i == |text| {
      AtEnd(text, args, count);
    } else {
      assert text[i] in text;
      PlainStep(text, i, args, count);
      TextIsText(text, i + 1, args, count + 1);
    }
  }

  /** So is everything from a directive on whose conversion is unknown. */
  lemma {:induction false} UnknownIsText(sp: Spec, rest: string, args: seq<Arg>, count: nat)
    requires Allowed(sp) && sp.conv !in "%cdinoprsuXxy" && sp.conv != NUL
    ensures var fmt := Format(sp) + rest;
            Closed(fmt, 0, args) && Output(fmt, 0, args) == fmt && Stores(fmt, 0, args, count) == []
  {
    hide Parse, ConversionAt, StarsAt, Drop, Meant, Allowed, Render, StoredBy, Body, Closed, Output, Stores, IsPart;
    var fmt := Format(sp) + rest;
    assert fmt[0] == '%' && fmt[0..] == fmt;
    Places(sp);
    ReadAsWritten(sp, args);
    SameBefore(Format(sp), rest, 1, Plain, args);
    DirectiveStep(fmt, 0, args, count);
  }
}
