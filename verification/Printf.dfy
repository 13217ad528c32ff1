/** vsnprintf and ksprintn as loops over the format, a digit buffer and the caller's buffer,
    proved to write the truncation of the output PrintfSpec defines. */
module Printf {
  import opened Bits
  import opened PrintfSpec

  function Min(a: int, b: int): int { if a < b then a else b }

  /** The caller's buffer and the PCHAR macro: characters are stored while two or more bytes are
      left, and always counted. */
  class Sink {
    const str: array<char>
    const capacity: nat
    ghost const before: seq<char>
    var at: nat
    var size: nat
    var retval: nat
    ghost var out: string

    ghost predicate Valid()
      reads this, str
    {
      && capacity <= str.Length && |before| == str.Length
      && retval == |out|
      && at == Max(0, Min(|out|, capacity - 1)) && size == capacity - at
      && str[..at] == out[..at]
      && str[at..] == before[at..]
    }

    constructor (str: array<char>, size: nat)
      requires size <= str.Length
      ensures Valid() && this.str == str && capacity == size && before == str[..] && out == ""
    {
      this.str, this.capacity, this.size, at, retval := str, size, size, 0, 0;
      before, out := str[..], "";
    }

    method Put(c: char)
      requires Valid()
      modifies this, str
      ensures Valid() && out == old(out) + [c]
    {
      out := out + [c];
      if size >= 2 {
        str[at] := c;
        at := at + 1;
        size := size - 1;
      }
      retval := retval + 1;
    }

    method PutRepeat(c: char, count: int)
      requires Valid()
      modifies this, str
      ensures Valid() && out == old(out) + Repeat(c, count)
    {
      var left, done := count, 0;
      while left > 0
        invariant Valid() && out == old(out) + Repeat(c, done)
        invariant done == if count > 0 then count - left else 0
        invariant left > 0 || done == Max(count, 0)
      {
        Put(c);
        left := left - 1;
        done := done + 1;
      }
    }

    method PutAll(s: string)
      requires Valid()
      modifies this, str
      ensures Valid() && out == old(out) + s
    {
      for i := 0 to |s|
        invariant Valid() && out == old(out) + s[..i]
      {
        Put(s[i]);
        assert s[..i + 1] == s[..i] + [s[i]];
      }
      assert s[..|s|] == s;
    }

    /** The end of the format: a NUL after what was stored, if there is room for one byte. */
    method Terminate()
      requires Valid()
      modifies str
      ensures retval == |out|
      ensures capacity == 0 ==> str[..] == before
      ensures capacity > 0 ==>
                var m := Min(|out|, capacity - 1);
                str[..m] == out[..m] && str[m] == NUL && str[m + 1..] == before[m + 1..]
    {
      if size >= 1 {
        str[at] := NUL;
      } else {
        assert at == 0 && str[0..] == str[..] && before[0..] == before;
      }
    }
  }

  // ---------------------------------------------------------------- numbers

  const MAXNBUF: nat := 65

  function Reversed(s: string): string {
    if |s| == 0 then "" else [s[|s| - 1]] + Reversed(s[..|s| - 1])
  }

  lemma {:induction false} ReversedLast(s: string, c: char)
    ensures Reversed(s + [c]) == [c] + Reversed(s)
  {
    assert (s + [c])[..|s|] == s;
  }

  lemma {:induction false} NoneReversed()
    ensures Reversed("") == ""
  {
  }

  /** The digits of a 64-bit number, last one first, behind a NUL: 65 bytes are always enough. */
  method Ksprintn(nbuf: array<char>, num: nat, base: nat, upper: bool) returns (p: nat)
    requires nbuf.Length == MAXNBUF && 2 <= base <= 36 && num < 0x1_0000_0000_0000_0000
    modifies nbuf
    ensures 0 < p < MAXNBUF && nbuf[0] == NUL
    ensures Reversed(nbuf[1..p + 1]) == Digits(num, base, upper)
    ensures p == |Digits(num, base, upper)|
    ensures forall k :: 0 < k <= p ==> nbuf[k] != NUL
  {
    hide Digit, Digits, Pow2, Reversed;
    LargePowers();
    DigitsFit(num, base, upper, 64);
    p := 0;
    nbuf[0] := NUL;
    ghost var written := "";
    NoneReversed();
    var n: nat := num;
    var done := false;
    while !done
      invariant p <= 64 && nbuf[0] == NUL
      invariant |written| == p && nbuf[1..p + 1] == written && NUL !in written
      invariant Digits(num, base, upper)
                == (if done then [] else Digits(n, base, upper)) + Reversed(written)
      invariant |Reversed(written)| == p
      decreases if done then 0 else n + 1
    {
      LastDigit(n, base, upper);
      assert p < 64;
      var c := Digit(n % base, upper);
      ReversedLast(written, c);
      nbuf[p + 1] := c;
      assert nbuf[1..p + 2] == nbuf[1..p + 1] + [c];
      written := written + [c];
      p := p + 1;
      n := n / base;
      done := n == 0;
    }
    assert forall k :: 0 < k <= p ==> nbuf[k] == written[k - 1];
  }

  /** The last digit, and the digits before it if there are any. */
  lemma {:induction false} LastDigit(n: nat, base: nat, upper: bool)
    requires 2 <= base <= 36
    ensures 0 <= n % base < base && n / base >= 0 && (n > 0 ==> n / base < n)
    ensures Digit(n % base, upper) != NUL
    ensures Digits(n, base, upper)
            == (if n / base == 0 then [] else Digits(n / base, base, upper)) + [Digit(n % base, upper)]
  {
    hide Digit;
    Quotient(n, base);
    DivZero(n, base);
    DigitBack(n % base, upper);
  }

  lemma {:induction false} DivZero(n: nat, base: nat)
    requires base >= 2
    ensures n / base == 0 <==> n < base
    ensures n < base ==> n % base == n
  {
  }

  /** Printing the digit buffer from its last character down to the NUL. */
  method PutDigits(sink: Sink, nbuf: array<char>, n: nat)
    requires sink.Valid() && nbuf != sink.str
    requires n < nbuf.Length && nbuf[0] == NUL && forall k :: 0 < k <= n ==> nbuf[k] != NUL
    modifies sink, sink.str
    ensures sink.Valid() && sink.out == old(sink.out) + Reversed(nbuf[1..n + 1])
  {
    var p: nat := n;
    while nbuf[p] != NUL
      invariant p <= n && sink.Valid()
      invariant sink.out + Reversed(nbuf[1..p + 1]) == old(sink.out) + Reversed(nbuf[1..n + 1])
      decreases p
    {
      assert nbuf[1..p + 1][..p - 1] == nbuf[1..p];
      sink.Put(nbuf[p]);
      p := p - 1;
    }
    assert Reversed(nbuf[1..1]) == "";
  }
  function Negate(neg: bool, num: int): int { if neg then -num else num }

  /** The sign and the base mark. */
  method PutPrefix(sink: Sink, d: Directive, base: nat, neg: bool, num: nat)
    requires sink.Valid() && (neg ==> num > 0)
    modifies sink, sink.str
    ensures sink.Valid() && sink.out == old(sink.out) + Prefix(d, base, Negate(neg, num))
  {
    if neg {
      sink.Put('-');
    }
    if d.sharp && num != 0 {
      if base == 8 {
        sink.Put('0');
      } else if base == 16 {
        sink.Put('0');
        sink.Put('x');
      }
    }
  }

  /** What is left of the width for blanks, and of the digits for zeros, once the prefix and n
      digits are accounted for. Right-justified zero padding replaces the precision. */
  method FieldWidths(d: Directive, base: nat, neg: bool, num: nat, n: nat) returns (width: int, dwidth: int)
    requires neg ==> num > 0
    ensures var v := Negate(neg, num);
            && dwidth == LeastDigits(d, base, v) - n
            && width == d.width - (|Prefix(d, base, v)| + Max(LeastDigits(d, base, v), n))
  {
    var tmp := 0;
    if d.sharp && num != 0 {
      if base == 8 {
        tmp := tmp + 1;
      } else if base == 16 {
        tmp := tmp + 2;
      }
    }
    if neg {
      tmp := tmp + 1;
    }
    width, dwidth := d.width, d.precision;
    if !d.left && d.pad == '0' {
      dwidth := width - tmp;
    }
    width := width - (tmp + if dwidth > n then dwidth else n);
    dwidth := dwidth - n;
  }

  /** The output of a number: blanks on one side, prefix, zeros and the buffered digits. */
  method PutField(sink: Sink, nbuf: array<char>, d: Directive, base: nat, neg: bool, num: nat,
                  n: nat, width: int, dwidth: int)
    requires sink.Valid() && nbuf != sink.str && (neg ==> num > 0)
    requires n < nbuf.Length && nbuf[0] == NUL && forall k :: 0 < k <= n ==> nbuf[k] != NUL
    modifies sink, sink.str
    ensures sink.Valid()
    ensures var text := Prefix(d, base, Negate(neg, num)) + Repeat('0', dwidth) + Reversed(nbuf[1..n + 1]);
            sink.out == old(sink.out) + if d.left then text + Repeat(' ', width) else Repeat(' ', width) + text
  {
    hide Repeat, Prefix, Reversed, Sink.Valid;
    if !d.left {
      sink.PutRepeat(' ', width);
    }
    PutPrefix(sink, d, base, neg, num);
    sink.PutRepeat('0', dwidth);
    PutDigits(sink, nbuf, n);
    if d.left {
      sink.PutRepeat(' ', width);
    }
  }

  /** The part of the switch under the label `number`. */
  method PutNumber(sink: Sink, nbuf: array<char>, d: Directive, base: nat, upper: bool, sign: bool, word: nat)
    requires sink.Valid() && nbuf != sink.str
    requires nbuf.Length == MAXNBUF && 2 <= base <= 36 && word < 0x1_0000_0000_0000_0000
    modifies sink, sink.str, nbuf
    ensures sink.Valid()
    ensures sink.out == old(sink.out)
                        + NumberField(d, base, upper, if sign then Signed(word, 0x1_0000_0000_0000_0000) else word)
  {
    hide Digits, Repeat, Prefix, Reversed, NumberField, LeastDigits;
    var num, neg := word, false;
    if sign && word >= 0x8000_0000_0000_0000 {
      neg := true;
      num := 0x1_0000_0000_0000_0000 - word;
    }
    var n := Ksprintn(nbuf, num, base, upper);
    var width, dwidth := FieldWidths(d, base, neg, num, n);
    NumberParts(d, base, upper, Negate(neg, num), width, dwidth);
    PutField(sink, nbuf, d, base, neg, num, n, width, dwidth);
  }

  /** The pieces of a numeric field, with the widths the code computes. */
  lemma {:induction false} NumberParts(d: Directive, base: nat, upper: bool, v: int, width: int, dwidth: int)
    requires 2 <= base <= 36
    requires var n := |Digits(Magnitude(v), base, upper)|;
             && dwidth == LeastDigits(d, base, v) - n
             && width == d.width - (|Prefix(d, base, v)| + Max(LeastDigits(d, base, v), n))
    ensures var text := Prefix(d, base, v) + Repeat('0', dwidth) + Digits(Magnitude(v), base, upper);
            NumberField(d, base, upper, v) == if d.left then text + Repeat(' ', width) else Repeat(' ', width) + text
  {
    hide Digits, Prefix, Repeat;
  }

  // ---------------------------------------------------------------- arguments

  /** The labels handle_sign and handle_nosign: the argument as the 64-bit number `num`. */
  method FetchNumber(d: Directive, w: nat, sign: bool) returns (num: nat)
    requires w < 0x1_0000_0000_0000_0000
    ensures num < 0x1_0000_0000_0000_0000
    ensures (if sign then Signed(num, 0x1_0000_0000_0000_0000) else num) == NumberArg(d, w, sign)
  {
    if d.j || d.q || d.t || d.l || d.z {
      num := w;
    } else if d.h {
      num := w % 0x1_0000;
      if sign && num >= 0x8000 {
        num := num + 0xFFFF_FFFF_FFFF_0000;
      }
    } else if d.c {
      num := w % 0x100;
    } else {
      num := w % 0x1_0000_0000;
      if sign && num >= 0x8000_0000 {
        num := num + 0xFFFF_FFFF_0000_0000;
      }
    }
  }

  /** A decimal number in the format, and the index after it. */
  method ReadNumber(fmt: string, start: nat) returns (n: nat, i: nat)
    requires start < |fmt| && IsDigit(fmt[start])
    ensures n == DecimalAt(fmt, start) && i == DigitsEnd(fmt, start) && i > start
  {
    i, n := start, 0;
    var more := true;
    while more
      invariant start <= i <= |fmt| && (forall k :: start <= k < i ==> IsDigit(fmt[k]))
      invariant n == Decimal(fmt[start..i]) && DigitsEnd(fmt, i) == DigitsEnd(fmt, start)
      invariant more <==> i < |fmt| && IsDigit(fmt[i])
      decreases |fmt| - i
    {
      DecimalNext(fmt, start, i);
      n := n * 10 + (fmt[i] as int - '0' as int);
      i := i + 1;
      more := i < |fmt| && IsDigit(fmt[i]);
    }
  }

  lemma {:induction false} DecimalNext(fmt: string, start: nat, i: nat)
    requires start <= i < |fmt| && forall k :: start <= k <= i ==> IsDigit(fmt[k])
    ensures Decimal(fmt[start..i + 1]) == 10 * Decimal(fmt[start..i]) + (fmt[i] as int - '0' as int)
  {
    assert fmt[start..i + 1][..i - start] == fmt[start..i];
  }

  /** The loop through the label `reswitch`: everything between '%' and the conversion. */
  method ReadDirective(fmt: string, start: nat, given: seq<Arg>)
    returns (d: Directive, conv: char, i: nat, args: seq<Arg>)
    requires start <= |fmt|
    ensures Parsed(d, conv, i, args) == Parse(fmt, start, Plain, given)
  {
    hide DecimalAt, DigitsEnd, Modify, Star, IsModifier;
    d, i, args := Plain, start, given;
    conv := NUL;
    var done := i == |fmt|;
    while !done
      invariant i <= |fmt| && (!done ==> conv == NUL)
      invariant !done ==> i < |fmt| && Parse(fmt, i, d, args) == Parse(fmt, start, Plain, given)
      invariant done ==> Parsed(d, conv, i, args) == Parse(fmt, start, Plain, given)
      decreases |fmt| - i, !done
    {
      var ch := fmt[i];
      if IsModifier(ch) && !(ch == '0' && d.dot) {
        d, i := Modify(d, ch), i + 1;
      } else if ch == '*' {
        d, i, args := Star(d, args), i + 1, Rest(args);
      } else if IsDigit(ch) {
        var n, next := ReadNumber(fmt, i);
        DigitsStep(fmt, i);
        d := if d.dot then d.(precision := n) else d.(width := n);
        i := next;
      } else {
        conv, i, done := ch, i + 1, true;
      }
      if i == |fmt| && !done {
        done := true;
      }
    }
  }

  lemma {:induction false} DigitsStep(fmt: string, i: nat)
    requires i < |fmt| && IsDigit(fmt[i])
    ensures DigitsEnd(fmt, i) == DigitsEnd(fmt, i + 1)
  {
  }

  // ---------------------------------------------------------------- conversions

  /** One conversion of the switch. */
  method Convert(sink: Sink, nbuf: array<char>, d: Directive, conv: char, i: nat, given: seq<Arg>)
    returns (args: seq<Arg>, stored: seq<Store>)
    requires sink.Valid() && nbuf != sink.str && nbuf.Length == MAXNBUF && IsConversion(conv)
    modifies sink, sink.str, nbuf
    ensures sink.Valid()
    ensures var r := Render(Parsed(d, conv, i, given)); sink.out == old(sink.out) + r.0 && args == r.1
    ensures stored == StoredBy(Parsed(d, conv, i, given), old(|sink.out|))
  {
    hide NumberField, TextField, NumberArg, Sink.Valid, NextWord, NextText, CountStored;
    args, stored := given, [];
    if conv == '%' {
      sink.Put('%');
      return;
    }
    args := Rest(given);
    var w := NextWord(given);
    match conv {
      case 'c' => sink.Put((w % 256) as char);
      case 'n' =>
        var count := StoreCount(sink, d);
        stored := [count];
        assert sink.out == old(sink.out) + "";
      case 's' => PutText(sink, d, NextText(given));
      case 'p' => PutNumber(sink, nbuf, d.(sharp := d.width == 0), 16, false, false, w);
      case 'o' =>
        var num := FetchNumber(d, w, false);
        PutNumber(sink, nbuf, d, 8, false, false, num);
      case 'u' =>
        var num := FetchNumber(d, w, false);
        PutNumber(sink, nbuf, d, 10, false, false, num);
      case 'X' =>
        var num := FetchNumber(d, w, false);
        PutNumber(sink, nbuf, d, 16, true, false, num);
      case 'x' =>
        var num := FetchNumber(d, w, false);
        PutNumber(sink, nbuf, d, 16, false, false, num);
      case 'y' =>
        var num := FetchNumber(d, w, true);
        PutNumber(sink, nbuf, d, 16, false, true, num);
      case 'r' =>
        var num := FetchNumber(d, w, d.signed);
        PutNumber(sink, nbuf, d, 10, false, d.signed, num);
      case _ =>
        var num := FetchNumber(d, w, true);
        PutNumber(sink, nbuf, d, 10, false, true, num);
    }
  }

  /** The case of `%n`: the store goes through the argument, to memory that is not the buffer. */
  method StoreCount(sink: Sink, d: Directive) returns (s: Store)
    requires sink.Valid()
    ensures s == CountStored(d, |sink.out|)
  {
    var retval := sink.retval;
    if d.j {
      s := Store(8, retval % 0x1_0000_0000_0000_0000);
    } else if d.q {
      s := Store(8, retval % 0x1_0000_0000_0000_0000);
    } else if d.l {
      s := Store(8, retval % 0x1_0000_0000_0000_0000);
    } else if d.z {
      s := Store(8, retval % 0x1_0000_0000_0000_0000);
    } else if d.h {
      s := Store(2, retval % 0x1_0000);
    } else if d.c {
      s := Store(1, retval % 0x100);
    } else {
      s := Store(4, retval % 0x1_0000_0000);
    }
  }

  /** The case of `%s`. */
  method PutText(sink: Sink, d: Directive, p: string)
    requires sink.Valid()
    modifies sink, sink.str
    ensures sink.Valid() && sink.out == old(sink.out) + TextField(d, p)
  {
    hide Sink.Valid, Repeat;
    var n: nat := 0;
    if !d.dot {
      n := |p|;
    } else {
      while n < d.precision && n < |p|
        invariant n <= |p| && n <= Max(0, d.precision)
      {
        n := n + 1;
      }
    }
    var width := d.width - n;
    ghost var shown := p[..n];
    assert TextField(d, p) == Justified(d, shown, d.pad);
    if !d.left {
      sink.PutRepeat(d.pad, width);
    }
    sink.PutAll(p[..n]);
    if d.left {
      sink.PutRepeat(d.pad, width);
    }
  }

  // ---------------------------------------------------------------- vsnprintf

  /** The output still to come: plain text once an unknown conversion has been met. */
  ghost function Remaining(fmt: string, i: nat, args: seq<Arg>, stop: bool): string
    requires i <= |fmt| && (stop || Closed(fmt, i, args))
  {
    if stop then fmt[i..] else Output(fmt, i, args)
  }

  ghost function RemainingStores(fmt: string, i: nat, args: seq<Arg>, stop: bool, count: nat): seq<Store>
    requires i <= |fmt| && (stop || Closed(fmt, i, args))
  {
    if stop then [] else Stores(fmt, i, args, count)
  }

  lemma {:induction false} PlainStep(fmt: string, i: nat, args: seq<Arg>, stop: bool)
    requires i < |fmt| && (stop || Closed(fmt, i, args)) && (stop || fmt[i] != '%')
    ensures stop || Closed(fmt, i + 1, args)
    ensures Remaining(fmt, i, args, stop) == [fmt[i]] + Remaining(fmt, i + 1, args, stop)
    ensures forall n: nat :: RemainingStores(fmt, i, args, stop, n) == RemainingStores(fmt, i + 1, args, stop, n + 1)
  {
    if stop {
      assert fmt[i..] == [fmt[i]] + fmt[i + 1..];
    }
  }

  /** From a '%' on: one directive, or its text after an unknown conversion. */
  method Conversion(sink: Sink, nbuf: array<char>, fmt: string, percent: nat, given: seq<Arg>)
    returns (i: nat, args: seq<Arg>, stop: bool, stored: seq<Store>)
    requires sink.Valid() && nbuf != sink.str && nbuf.Length == MAXNBUF
    requires percent < |fmt| && fmt[percent] == '%' && Closed(fmt, percent, given)
    modifies sink, sink.str, nbuf
    ensures sink.Valid() && percent < i <= |fmt| && (stop || Closed(fmt, i, args))
    ensures sink.out + Remaining(fmt, i, args, stop) == old(sink.out) + Remaining(fmt, percent, given, false)
    ensures stored + RemainingStores(fmt, i, args, stop, |sink.out|)
            == RemainingStores(fmt, percent, given, false, old(|sink.out|))
  {
    hide Sink.Valid, Render, Parse, IsConversion, StoredBy;
    var d, conv, next, rest := ReadDirective(fmt, percent + 1, given);
    i, args, stop, stored := next, rest, false, [];
    if IsConversion(conv) {
      args, stored := Convert(sink, nbuf, d, conv, next, rest);
    } else {
      sink.PutAll(fmt[percent..next]);
      assert fmt[percent..] == fmt[percent..next] + fmt[next..];
      stop := true;
    }
  }

  /** The loop over the format. */
  method PutFormat(sink: Sink, nbuf: array<char>, fmt: string, given: seq<Arg>) returns (stored: seq<Store>)
    requires sink.Valid() && nbuf != sink.str && nbuf.Length == MAXNBUF && Closed(fmt, 0, given)
    modifies sink, sink.str, nbuf
    ensures sink.Valid() && sink.out == old(sink.out) + Output(fmt, 0, given)
    ensures stored == Stores(fmt, 0, given, old(|sink.out|))
  {
    hide Sink.Valid, Output, Stores, Closed, Remaining, RemainingStores;
    var i, args, stop := 0, given, false;
    stored := [];
    ghost var whole := old(sink.out) + Remaining(fmt, 0, given, false);
    ghost var all := RemainingStores(fmt, 0, given, false, old(|sink.out|));
    while i < |fmt|
      invariant i <= |fmt| && sink.Valid()
      invariant stop || Closed(fmt, i, args)
      invariant whole == sink.out + Remaining(fmt, i, args, stop)
      invariant all == stored + RemainingStores(fmt, i, args, stop, |sink.out|)
    {
      if fmt[i] != '%' || stop {
        PlainStep(fmt, i, args, stop);
        sink.Put(fmt[i]);
        i := i + 1;
      } else {
        var more;
        i, args, stop, more := Conversion(sink, nbuf, fmt, i, args);
        stored := stored + more;
      }
    }
    AtTheEnds(fmt, given, args, stop);
  }

  lemma {:induction false} AtTheEnds(fmt: string, given: seq<Arg>, args: seq<Arg>, stop: bool)
    requires Closed(fmt, 0, given) && (stop || Closed(fmt, |fmt|, args))
    ensures Remaining(fmt, 0, given, false) == Output(fmt, 0, given)
    ensures Remaining(fmt, |fmt|, args, stop) == ""
    ensures forall n: nat :: RemainingStores(fmt, 0, given, false, n) == Stores(fmt, 0, given, n)
    ensures forall n: nat :: RemainingStores(fmt, |fmt|, args, stop, n) == []
  {
  }

  /** For every closed format, arguments and size: the first min(length, size - 1) characters of
      the output are stored, then a NUL, and nothing else; with size 0 nothing is stored. The
      untruncated length is returned, and every %n stores the length of what precedes it. */
  method Vsnprintf(str: array<char>, size: nat, fmt: string, given: seq<Arg>)
    returns (retval: nat, stored: seq<Store>)
    requires size <= str.Length && NUL !in fmt && Closed(fmt, 0, given)
    modifies str
    ensures retval == |Output(fmt, 0, given)| && stored == Stores(fmt, 0, given, 0)
    ensures size == 0 ==> str[..] == old(str[..])
    ensures size > 0 ==>
              var m := Min(retval, size - 1);
              && str[..m] == Output(fmt, 0, given)[..m] && str[m] == NUL
              && str[m + 1..] == old(str[m + 1..])
  {
    hide Sink.Valid, Output, Stores, Closed;
    var nbuf := new char[MAXNBUF];
    var sink := new Sink(str, size);
    stored := PutFormat(sink, nbuf, fmt, given);
    assert sink.out == Output(fmt, 0, given);
    sink.Terminate();
    retval := sink.retval;
  }
}
