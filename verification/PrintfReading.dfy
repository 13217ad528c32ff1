/** How a format is read: which argument serves which directive, and that every directive of the
    standard's grammar is read as it is written. */
module PrintfReading {
  import opened PrintfSpec
  import opened PrintfC99

  // ---------------------------------------------------------------- counting arguments

  /** The characters that may stand between '%' and the conversion character. */
  predicate IsPart(c: char) { c in "#+-.*0123456789hjlqtz" }

  /** Where the conversion character is of the directive that is being read at i. */
  function ConversionAt(fmt: string, i: nat): (k: nat)
    requires i <= |fmt|
    ensures i <= k <= |fmt| && (k < |fmt| ==> !IsPart(fmt[k]))
    decreases |fmt| - i
  {
    if i < |fmt| && IsPart(fmt[i]) then ConversionAt(fmt, i + 1) else i
  }

  /** The number of '*' up to there. */
  function StarsAt(fmt: string, i: nat): nat
    requires i <= |fmt|
    decreases |fmt| - i
  {
    if i < |fmt| && IsPart(fmt[i]) then (if fmt[i] == '*' then 1 else 0) + StarsAt(fmt, i + 1) else 0
  }

  /** Every directive from i on has a conversion that is known. */
  predicate Complete(fmt: string, i: nat)
    requires i <= |fmt|
    decreases |fmt| - i
  {
    if i == |fmt| then true
    else if fmt[i] != '%' then Complete(fmt, i + 1)
    else
      var k := ConversionAt(fmt, i + 1);
      k < |fmt| && fmt[k] in "%cdinoprsuXxy" && Complete(fmt, k + 1)
  }

  /** The number of arguments that the format takes from i on: one for each '*', and one for each
      conversion but "%%". */
  function Needs(fmt: string, i: nat): nat
    requires i <= |fmt| && Complete(fmt, i)
    decreases |fmt| - i
  {
    if i == |fmt| then 0
    else if fmt[i] != '%' then Needs(fmt, i + 1)
    else
      var k := ConversionAt(fmt, i + 1);
      StarsAt(fmt, i + 1) + (if fmt[k] == '%' then 0 else 1) + Needs(fmt, k + 1)
  }

  /** The arguments behind the first n, and the first n. */
  function Drop(args: seq<Arg>, n: nat): seq<Arg> { if n <= |args| then args[n..] else [] }

  function Take(args: seq<Arg>, n: nat): seq<Arg> { if n <= |args| then args[..n] else args }

  lemma {:induction false} DropMore(args: seq<Arg>, m: nat, n: nat)
    ensures Drop(Drop(args, m), n) == Drop(args, m + n)
    ensures Drop(args, 1) == Rest(args) && Drop(args, 0) == args
  {
  }

  lemma {:induction false} PartKinds(c: char)
    ensures IsPart(c) <==> IsModifier(c) || c == '*' || IsDigit(c)
    ensures !IsModifier('*') && !IsDigit('*') && IsDigit('0')
    ensures IsModifier(c) && IsDigit(c) ==> c == '0'
  {
  }

  /** A run of digits is part of the directive and has no '*' in it. */
  lemma {:induction false} DigitsArePart(fmt: string, i: nat)
    requires i <= |fmt|
    ensures ConversionAt(fmt, DigitsEnd(fmt, i)) == ConversionAt(fmt, i)
    ensures StarsAt(fmt, DigitsEnd(fmt, i)) == StarsAt(fmt, i)
    decreases |fmt| - i
  {
    hide IsPart, IsDigit;
    if i < |fmt| && IsDigit(fmt[i]) {
      PartKinds(fmt[i]);
      DigitsArePart(fmt, i + 1);
    }
  }

  /** What reading a directive finds and takes. */
  lemma {:induction false} ParseIs(fmt: string, i: nat, d: Directive, args: seq<Arg>)
    requires i <= |fmt|
    ensures var p, k := Parse(fmt, i, d, args), ConversionAt(fmt, i);
            && p.conv == (if k < |fmt| then fmt[k] else NUL)
            && p.next == (if k < |fmt| then k + 1 else k)
            && p.args == Drop(args, StarsAt(fmt, i))
    decreases |fmt| - i
  {
    hide IsPart, IsDigit, IsModifier, DecimalAt, Modify, Star, Numbered, DigitsEnd, Rest, Drop;
    DropMore(args, 0, 0);
    if i < |fmt| {
      PartKinds(fmt[i]);
      if IsModifier(fmt[i]) && !(fmt[i] == '0' && d.dot) {
        ParseIs(fmt, i + 1, Modify(d, fmt[i]), args);
      } else if fmt[i] == '*' {
        ParseIs(fmt, i + 1, Star(d, args), Rest(args));
        DropMore(args, 1, StarsAt(fmt, i + 1));
      } else if IsDigit(fmt[i]) {
        DigitsArePart(fmt, i + 1);
        ParseIs(fmt, DigitsEnd(fmt, i + 1), Numbered(d, DecimalAt(fmt, i)), args);
      }
    }
  }

  /** What a conversion takes. */
  lemma {:induction false} RenderTakes(p: Parsed)
    requires IsConversion(p.conv)
    ensures Render(p).1 == Drop(p.args, if p.conv == '%' then 0 else 1)
  {
    hide NumberField, TextField, NumberArg, NextWord, NextText;
  }

  lemma {:induction false} CompleteIsClosed(fmt: string, i: nat, args: seq<Arg>)
    requires i <= |fmt| && Complete(fmt, i)
    ensures Closed(fmt, i, args)
    decreases |fmt| - i
  {
    hide Parse, Render, ConversionAt;
    if i < |fmt| {
      if fmt[i] != '%' {
        CompleteIsClosed(fmt, i + 1, args);
      } else {
        var p := Parse(fmt, i + 1, Plain, args);
        ParseIs(fmt, i + 1, Plain, args);
        CompleteIsClosed(fmt, p.next, Render(p).1);
      }
    }
  }

  // ---------------------------------------------------------------- what a directive depends on

  lemma {:induction false} PartStep(fmt: string, i: nat)
    requires i < |fmt|
    ensures IsPart(fmt[i]) ==>
              && ConversionAt(fmt, i) == ConversionAt(fmt, i + 1)
              && StarsAt(fmt, i) == (if fmt[i] == '*' then 1 else 0) + StarsAt(fmt, i + 1)
    ensures !IsPart(fmt[i]) ==> ConversionAt(fmt, i) == i && StarsAt(fmt, i) == 0
  {
    hide IsPart;
  }

  lemma {:induction false} ReadStar(fmt: string, i: nat, d: Directive, args: seq<Arg>)
    requires i < |fmt| && fmt[i] == '*'
    ensures Parse(fmt, i, d, args) == Parse(fmt, i + 1, Star(d, args), Rest(args))
  {
    hide Star, Rest;
  }

  /** The n characters from i on in one format are those from j on in another. */
  predicate Alike(x: string, i: nat, y: string, j: nat, n: nat) {
    i + n <= |x| && j + n <= |y| && x[i..i + n] == y[j..j + n]
  }

  lemma {:induction false} AlikeWithin(x: string, i: nat, y: string, j: nat, n: nat, a: nat, b: nat)
    requires Alike(x, i, y, j, n) && a <= b <= n
    ensures i + n <= |x| && j + n <= |y| && x[i + a..i + b] == y[j + a..j + b]
    ensures Alike(x, i + a, y, j + a, b - a)
    ensures a < n ==> x[i + a] == y[j + a]
  {
    var s, t := x[i + a..i + b], y[j + a..j + b];
    forall k | 0 <= k < b - a
      ensures s[k] == t[k]
    {
      assert x[i..i + n][a + k] == y[j..j + n][a + k];
    }
    assert a < n ==> x[i..i + n][a] == y[j..j + n][a];
  }

  /** The characters of the directive read at i, conversion character included, stand at j. */
  predicate Repeated(x: string, i: nat, y: string, j: nat) {
    i <= |x| && ConversionAt(x, i) < |x| && Alike(x, i, y, j, ConversionAt(x, i) + 1 - i)
  }

  /** The directive read depends on its own characters and on the arguments its '*' take. */
  lemma {:induction false} ParseLocal(x: string, i: nat, y: string, j: nat, d: Directive, args: seq<Arg>)
    requires Repeated(x, i, y, j)
    ensures i < |x| && j < |y|
    ensures ConversionAt(y, j) - j == ConversionAt(x, i) - i && StarsAt(y, j) == StarsAt(x, i)
    ensures Parse(y, j, d, args).d == Parse(x, i, d, args).d
    decreases |x| - i
  {
    hide IsPart, IsDigit, IsModifier, DecimalAt, Modify, Star, Numbered, DigitsEnd, Rest, Parse, ConversionAt, StarsAt,
         Repeated;
    RepeatedStep(x, i, y, j);
    PartKinds(x[i]);
    PartStep(x, i);
    PartStep(y, j);
    if !IsPart(x[i]) {
      ReadConversion(x, i, d, args);
      ReadConversion(y, j, d, args);
    } else if IsDigit(x[i]) && (x[i] != '0' || d.dot) {
      NumberLocal(x, i, y, j);
      ReadNumber(x, i, d, args);
      ReadNumber(y, j, d, args);
      ParseLocal(x, DigitsEnd(x, i), y, DigitsEnd(y, j), Numbered(d, DecimalAt(x, i)), args);
    } else if x[i] == '*' {
      ReadStar(x, i, d, args);
      ReadStar(y, j, d, args);
      ParseLocal(x, i + 1, y, j + 1, Star(d, args), Rest(args));
    } else {
      ReadModifier(x, i, d, args);
      ReadModifier(y, j, d, args);
      ParseLocal(x, i + 1, y, j + 1, Modify(d, x[i]), args);
    }
  }

  lemma {:induction false} RepeatedStep(x: string, i: nat, y: string, j: nat)
    requires Repeated(x, i, y, j)
    ensures i < |x| && j < |y| && x[i] == y[j]
    ensures IsPart(x[i]) ==> Repeated(x, i + 1, y, j + 1)
  {
    hide IsPart, Alike;
    var n := ConversionAt(x, i) + 1 - i;
    AlikeWithin(x, i, y, j, n, 0, n);
    AlikeWithin(x, i, y, j, n, 1, n);
  }

  /** The same of a number within a directive. */
  lemma {:induction false} NumberLocal(x: string, i: nat, y: string, j: nat)
    requires Repeated(x, i, y, j) && i < |x| && j < |y| && IsDigit(x[i])
    ensures i < DigitsEnd(x, i) == DigitsEnd(x, i + 1)
    ensures DigitsEnd(y, j) == DigitsEnd(y, j + 1) == j + (DigitsEnd(x, i) - i)
    ensures DecimalAt(x, i) == DecimalAt(y, j)
    ensures ConversionAt(x, DigitsEnd(x, i)) == ConversionAt(x, i) && StarsAt(x, DigitsEnd(x, i)) == StarsAt(x, i)
    ensures ConversionAt(y, DigitsEnd(y, j)) == ConversionAt(y, j) && StarsAt(y, DigitsEnd(y, j)) == StarsAt(y, j)
    ensures Repeated(x, DigitsEnd(x, i), y, DigitsEnd(y, j))
  {
    hide IsPart, Decimal, Alike;
    DigitsArePart(x, i);
    DigitsArePart(y, j);
    var n := ConversionAt(x, i) + 1 - i;
    AlikeWithin(x, i, y, j, n, 0, n);
    PartKinds(x[i + n - 1]);
    EndsLocal(x, i, y, j, n);
    var e := DigitsEnd(x, i);
    AlikeWithin(x, i, y, j, n, 0, e - i);
    AlikeWithin(x, i, y, j, n, e - i, n);
  }

  lemma {:induction false} EndsLocal(x: string, i: nat, y: string, j: nat, n: nat)
    requires Alike(x, i, y, j, n) && n > 0 && i + n <= |x| && !IsDigit(x[i + n - 1])
    ensures j + n <= |y| && DigitsEnd(x, i) < i + n && DigitsEnd(y, j) == j + (DigitsEnd(x, i) - i)
    decreases n
  {
    hide Alike;
    AlikeWithin(x, i, y, j, n, 0, n);
    if IsDigit(x[i]) {
      AlikeWithin(x, i, y, j, n, 1, n);
      EndsLocal(x, i + 1, y, j + 1, n - 1);
    }
  }

  lemma {:induction false} ParseTaken(fmt: string, i: nat, d: Directive, args: seq<Arg>, m: nat)
    requires i <= |fmt| && m >= StarsAt(fmt, i)
    ensures Parse(fmt, i, d, Take(args, m)).d == Parse(fmt, i, d, args).d
    decreases |fmt| - i
  {
    hide IsPart, IsDigit, IsModifier, DecimalAt, Modify, Numbered, DigitsEnd, NextWord, Take;
    if i < |fmt| {
      PartKinds(fmt[i]);
      if IsModifier(fmt[i]) && !(fmt[i] == '0' && d.dot) {
        ParseTaken(fmt, i + 1, Modify(d, fmt[i]), args, m);
      } else if fmt[i] == '*' {
        TakeNext(args, m);
        ParseTaken(fmt, i + 1, Star(d, args), Rest(args), m - 1);
      } else if IsDigit(fmt[i]) {
        DigitsArePart(fmt, i + 1);
        ParseTaken(fmt, DigitsEnd(fmt, i + 1), Numbered(d, DecimalAt(fmt, i)), args, m);
      }
    }
  }

  lemma {:induction false} TakeNext(args: seq<Arg>, m: nat)
    requires m > 0
    ensures NextWord(Take(args, m)) == NextWord(args) && NextText(Take(args, m)) == NextText(args)
    ensures Rest(Take(args, m)) == Take(Rest(args), m - 1)
  {
  }

  lemma {:induction false} DropTaken(args: seq<Arg>, m: nat, n: nat)
    requires n <= m
    ensures Drop(Take(args, m), n) == Take(Drop(args, n), m - n)
  {
  }

  /** The text of a conversion depends on the directive and the next argument only, and that of "%%" on
      neither. */
  lemma {:induction false} RenderLocal(p: Parsed, q: Parsed)
    requires IsConversion(p.conv) && p.conv == q.conv && p.d == q.d
    requires p.conv == '%' || (NextWord(p.args) == NextWord(q.args) && NextText(p.args) == NextText(q.args))
    ensures Render(p).0 == Render(q).0
    ensures forall n: nat :: StoredBy(p, n) == StoredBy(q, n)
  {
    hide NumberField, TextField, NumberArg, NextWord, NextText, CountStored;
  }

  // ---------------------------------------------------------------- one format behind another

  lemma {:induction false} AtEnd(fmt: string, args: seq<Arg>, count: nat)
    ensures Closed(fmt, |fmt|, args) && Output(fmt, |fmt|, args) == "" && Stores(fmt, |fmt|, args, count) == []
  {
  }

  /** What the character at i, which starts no directive, does to output and stores. */
  lemma {:induction false} PlainStep(fmt: string, i: nat, args: seq<Arg>, count: nat)
    requires i < |fmt| && fmt[i] != '%'
    ensures Closed(fmt, i, args) <==> Closed(fmt, i + 1, args)
    ensures Closed(fmt, i, args) ==>
              && Output(fmt, i, args) == [fmt[i]] + Output(fmt, i + 1, args)
              && Stores(fmt, i, args, count) == Stores(fmt, i + 1, args, count + 1)
  {
  }

  /** The same of a directive. */
  lemma {:induction false} DirectiveStep(fmt: string, i: nat, args: seq<Arg>, count: nat)
    requires i < |fmt| && fmt[i] == '%'
    ensures var p := Parse(fmt, i + 1, Plain, args);
            && (Closed(fmt, i, args) <==>
                p.conv != NUL && (IsConversion(p.conv) ==> Closed(fmt, p.next, Render(p).1)))
            && (Closed(fmt, i, args) && IsConversion(p.conv) ==>
                  && Output(fmt, i, args) == Render(p).0 + Output(fmt, p.next, Render(p).1)
                  && Stores(fmt, i, args, count)
                     == StoredBy(p, count) + Stores(fmt, p.next, Render(p).1, count + |Render(p).0|))
            && (Closed(fmt, i, args) && !IsConversion(p.conv) ==>
                  Output(fmt, i, args) == fmt[i..] && Stores(fmt, i, args, count) == [])
  {
    hide Parse, Render, IsConversion, StoredBy;
  }

  /** A format does the same behind another one. */
  lemma {:induction false} Shifted(f: string, g: string, j: nat, args: seq<Arg>, count: nat)
    requires j <= |g| && Closed(g, j, args)
    ensures Closed(f + g, |f| + j, args)
    ensures Output(f + g, |f| + j, args) == Output(g, j, args)
    ensures Stores(f + g, |f| + j, args, count) == Stores(g, j, args, count)
    decreases |g| - j
  {
    hide Parse, Render, IsConversion, StoredBy, Closed, Output, Stores;
    var fg := f + g;
    if j == |g| {
      AtEnd(g, args, count);
      AtEnd(fg, args, count);
    } else {
      assert fg[|f| + j] == g[j];
      if g[j] != '%' {
        PlainStep(g, j, args, count);
        PlainStep(fg, |f| + j, args, count);
        Shifted(f, g, j + 1, args, count + 1);
      } else {
        var p, q := Parse(g, j + 1, Plain, args), Parse(fg, |f| + j + 1, Plain, args);
        DirectiveStep(g, j, args, count);
        DirectiveStep(fg, |f| + j, args, count);
        SameBehind(f, g, j + 1, Plain, args);
        assert fg[|f| + j..] == g[j..];
        if IsConversion(p.conv) {
          RenderLocal(p, q);
          RenderTakes(p);
          RenderTakes(q);
          Shifted(f, g, p.next, Render(p).1, count + |Render(p).0|);
        }
      }
    }
  }

  lemma {:induction false} SameBehind(f: string, g: string, j: nat, d: Directive, args: seq<Arg>)
    requires j <= |g| && Parse(g, j, d, args).conv != NUL
    ensures var p := Parse(g, j, d, args); Parse(f + g, |f| + j, d, args) == p.(next := |f| + p.next)
  {
    hide Parse, ConversionAt, StarsAt, Drop, Repeated;
    ParseIs(g, j, d, args);
    ParseIs(f + g, |f| + j, d, args);
    BehindRepeats(f, g, j);
    ParseLocal(g, j, f + g, |f| + j, d, args);
    assert (f + g)[|f| + ConversionAt(g, j)] == g[ConversionAt(g, j)];
  }

  lemma {:induction false} BehindRepeats(f: string, g: string, j: nat)
    requires j <= |g| && ConversionAt(g, j) < |g|
    ensures Repeated(g, j, f + g, |f| + j)
  {
    hide ConversionAt;
    var n := ConversionAt(g, j) + 1 - j;
    assert (f + g)[|f| + j..|f| + j + n] == g[j..j + n];
  }

  /** Reading in the first of two formats. */
  lemma {:induction false} SameBefore(f: string, g: string, i: nat, d: Directive, args: seq<Arg>)
    requires i <= |f| && ConversionAt(f, i) < |f|
    ensures Parse(f + g, i, d, args) == Parse(f, i, d, args)
    ensures ConversionAt(f + g, i) == ConversionAt(f, i) && StarsAt(f + g, i) == StarsAt(f, i)
  {
    hide Parse, ConversionAt, StarsAt, Drop, Repeated;
    ParseIs(f, i, d, args);
    ParseIs(f + g, i, d, args);
    BeforeRepeats(f, g, i);
    ParseLocal(f, i, f + g, i, d, args);
    assert (f + g)[ConversionAt(f, i)] == f[ConversionAt(f, i)];
  }

  lemma {:induction false} BeforeRepeats(f: string, g: string, i: nat)
    requires i <= |f| && ConversionAt(f, i) < |f|
    ensures Repeated(f, i, f + g, i)
  {
    hide ConversionAt;
    var n := ConversionAt(f, i) + 1 - i;
    assert (f + g)[i..i + n] == f[i..i + n];
  }

  /** A complete directive. */
  lemma {:induction false} CompleteStep(f: string, i: nat, args: seq<Arg>)
    requires i < |f| && Complete(f, i)
    ensures f[i] != '%' ==> Complete(f, i + 1) && Needs(f, i) == Needs(f, i + 1)
    ensures f[i] == '%' ==>
              var p, k := Parse(f, i + 1, Plain, args), ConversionAt(f, i + 1);
              && k < |f| && p.conv == f[k] && p.conv != NUL && IsConversion(p.conv) && p.next == k + 1
              && Complete(f, p.next)
              && Render(p).1 == Drop(args, StarsAt(f, i + 1) + if f[k] == '%' then 0 else 1)
              && Needs(f, i) == StarsAt(f, i + 1) + (if f[k] == '%' then 0 else 1) + Needs(f, p.next)
  {
    hide Parse, Render, ConversionAt, StarsAt, Drop;
    if f[i] == '%' {
      var p := Parse(f, i + 1, Plain, args);
      ParseIs(f, i + 1, Plain, args);
      RenderTakes(p);
      DropMore(args, StarsAt(f, i + 1), if p.conv == '%' then 0 else 1);
    }
  }

  /** The output of one format behind another: the second goes on with the arguments that the first
      leaves. */
  lemma {:induction false} Joined(f: string, g: string, i: nat, args: seq<Arg>, count: nat)
    requires i <= |f| && Complete(f, i) && Closed(g, 0, Drop(args, Needs(f, i)))
    ensures Closed(f, i, args) && Closed(f + g, i, args)
    ensures Output(f + g, i, args) == Output(f, i, args) + Output(g, 0, Drop(args, Needs(f, i)))
    ensures Stores(f + g, i, args, count)
            == Stores(f, i, args, count)
               + Stores(g, 0, Drop(args, Needs(f, i)), count + |Output(f, i, args)|)
    decreases |f| - i
  {
    hide Parse, Render, IsConversion, StoredBy, Closed, Output, Stores, Complete, Needs, Drop, ConversionAt, StarsAt;
    var fg := f + g;
    if i == |f| {
      NothingNeeded(f, args);
      AtEnd(f, args, count);
      Shifted(f, g, 0, args, count);
    } else {
      assert fg[i] == f[i];
      CompleteStep(f, i, args);
      if f[i] != '%' {
        PlainStep(f, i, args, count);
        PlainStep(fg, i, args, count);
        Joined(f, g, i + 1, args, count + 1);
      } else {
        var p := Parse(f, i + 1, Plain, args);
        SameBefore(f, g, i + 1, Plain, args);
        DirectiveStep(f, i, args, count);
        DirectiveStep(fg, i, args, count);
        DropMore(args, StarsAt(f, i + 1) + if p.conv == '%' then 0 else 1, Needs(f, p.next));
        Joined(f, g, p.next, Render(p).1, count + |Render(p).0|);
      }
    }
  }

  lemma {:induction false} NothingNeeded(f: string, args: seq<Arg>)
    ensures Complete(f, |f|) && Needs(f, |f|) == 0 && Drop(args, 0) == args
  {
  }

  /** A format's output depends on the arguments that it needs, and on no others. */
  lemma {:induction false} OnlyNeeded(f: string, i: nat, args: seq<Arg>, m: nat, count: nat)
    requires i <= |f| && Complete(f, i) && m >= Needs(f, i)
    ensures Closed(f, i, args) && Closed(f, i, Take(args, m))
    ensures Output(f, i, Take(args, m)) == Output(f, i, args)
    ensures Stores(f, i, Take(args, m), count) == Stores(f, i, args, count)
    decreases |f| - i
  {
    hide Parse, Render, IsConversion, StoredBy, Closed, Output, Stores, Complete, Needs, Drop, Take, ConversionAt,
         StarsAt;
    var less := Take(args, m);
    if i == |f| {
      AtEnd(f, args, count);
      AtEnd(f, less, count);
    } else {
      CompleteStep(f, i, args);
      CompleteStep(f, i, less);
      if f[i] != '%' {
        PlainStep(f, i, args, count);
        PlainStep(f, i, less, count);
        OnlyNeeded(f, i + 1, args, m, count + 1);
      } else {
        var p, q := Parse(f, i + 1, Plain, args), Parse(f, i + 1, Plain, less);
        DirectiveStep(f, i, args, count);
        DirectiveStep(f, i, less, count);
        SameFromTaken(f, i + 1, args, m);
        var taken := StarsAt(f, i + 1) + if p.conv == '%' then 0 else 1;
        DropTaken(args, m, taken);
        OnlyNeeded(f, p.next, Render(p).1, m - taken, count + |Render(p).0|);
      }
    }
  }

  lemma {:induction false} SameFromTaken(f: string, i: nat, args: seq<Arg>, m: nat)
    requires i <= |f| && IsConversion(Parse(f, i, Plain, args).conv)
    requires m >= StarsAt(f, i) + if Parse(f, i, Plain, args).conv == '%' then 0 else 1
    ensures var p, q := Parse(f, i, Plain, args), Parse(f, i, Plain, Take(args, m));
            && q.conv == p.conv && q.next == p.next && Render(q).0 == Render(p).0
            && forall n: nat :: StoredBy(q, n) == StoredBy(p, n)
  {
    hide Parse, Render, IsConversion, StoredBy, Drop, Take, ConversionAt, StarsAt, NextWord, NextText;
    var p, q := Parse(f, i, Plain, args), Parse(f, i, Plain, Take(args, m));
    ParseIs(f, i, Plain, args);
    ParseIs(f, i, Plain, Take(args, m));
    ParseTaken(f, i, Plain, args, m);
    DropTaken(args, m, StarsAt(f, i));
    if p.conv != '%' {
      TakeNext(p.args, m - StarsAt(f, i));
    }
    RenderLocal(p, q);
  }

  /** Directives use the arguments in order: the first format gets as many as it needs, the second
      those behind them. */
  lemma {:induction false} ArgumentsInOrder(f: string, g: string, args: seq<Arg>, count: nat)
    requires Complete(f, 0) && Closed(g, 0, Drop(args, Needs(f, 0)))
    ensures var n := Needs(f, 0);
            var mine, others := Take(args, n), Drop(args, n);
            && Closed(f + g, 0, args) && Closed(f, 0, mine)
            && Output(f + g, 0, args) == Output(f, 0, mine) + Output(g, 0, others)
            && Stores(f + g, 0, args, count)
               == Stores(f, 0, mine, count) + Stores(g, 0, others, count + |Output(f, 0, mine)|)
  {
    hide Closed, Output, Stores, Complete, Needs, Drop, Take;
    Joined(f, g, 0, args, count);
    OnlyNeeded(f, 0, args, Needs(f, 0), count);
  }

  /** Complete formats behind each other. */
  lemma {:induction false} CompleteJoined(f: string, g: string, i: nat)
    requires i <= |f| && Complete(f, i) && Complete(g, 0)
    ensures Complete(f + g, i) && Needs(f + g, i) == Needs(f, i) + Needs(g, 0)
    decreases |f| - i
  {
    hide ConversionAt, StarsAt;
    var fg := f + g;
    if i == |f| {
      CompleteShifted(f, g, 0);
    } else {
      assert fg[i] == f[i];
      if f[i] != '%' {
        CompleteJoined(f, g, i + 1);
      } else {
        var k := ConversionAt(f, i + 1);
        SameBefore(f, g, i + 1, Plain, []);
        assert fg[k] == f[k];
        CompleteJoined(f, g, k + 1);
      }
    }
  }

  lemma {:induction false} CompleteShifted(f: string, g: string, j: nat)
    requires j <= |g| && Complete(g, j)
    ensures Complete(f + g, |f| + j) && Needs(f + g, |f| + j) == Needs(g, j)
    decreases |g| - j
  {
    hide ConversionAt, StarsAt;
    var fg := f + g;
    if j < |g| {
      assert fg[|f| + j] == g[j];
      if g[j] != '%' {
        CompleteShifted(f, g, j + 1);
      } else {
        PlacesBehind(f, g, j + 1);
        CompleteShifted(f, g, ConversionAt(g, j + 1) + 1);
      }
    }
  }

  lemma {:induction false} PlacesBehind(f: string, g: string, j: nat)
    requires j <= |g| && ConversionAt(g, j) < |g|
    ensures ConversionAt(f + g, |f| + j) == |f| + ConversionAt(g, j) && StarsAt(f + g, |f| + j) == StarsAt(g, j)
    ensures (f + g)[|f| + ConversionAt(g, j)] == g[ConversionAt(g, j)]
  {
    hide ConversionAt, StarsAt, Repeated, Parse;
    BehindRepeats(f, g, j);
    ParseLocal(g, j, f + g, |f| + j, Plain, []);
  }

  function Flat(fs: seq<string>): string { if fs == [] then "" else Flat(fs[..|fs| - 1]) + fs[|fs| - 1] }

  /** Formats that need one argument each. */
  predicate OneEach(fs: seq<string>) {
    forall k :: 0 <= k < |fs| ==> Complete(fs[k], 0) && Needs(fs[k], 0) == 1
  }

  lemma {:induction false} FlatNeeds(fs: seq<string>)
    requires OneEach(fs)
    ensures Complete(Flat(fs), 0) && Needs(Flat(fs), 0) == |fs|
    decreases |fs|
  {
    hide Complete, Needs;
    if fs == [] {
      NothingNeeded("", []);
    } else {
      FlatNeeds(fs[..|fs| - 1]);
      CompleteJoined(Flat(fs[..|fs| - 1]), fs[|fs| - 1], 0);
    }
  }

  /** The text of the k-th directive is that of the k-th argument, whatever stands before it. */
  lemma {:induction false} DirectivesInOrder(fs: seq<string>, args: seq<Arg>, k: nat)
    requires OneEach(fs) && k < |fs| && |fs| <= |args|
    ensures Closed(Flat(fs[..k + 1]), 0, args) && Closed(Flat(fs[..k]), 0, args) && Closed(fs[k], 0, [args[k]])
    ensures Output(Flat(fs[..k + 1]), 0, args) == Output(Flat(fs[..k]), 0, args) + Output(fs[k], 0, [args[k]])
  {
    hide Closed, Output, Stores, Complete, Needs;
    var f, g := Flat(fs[..k]), fs[k];
    assert fs[..k + 1][..k] == fs[..k] && fs[..k + 1][k] == g;
    assert Flat(fs[..k + 1]) == f + g;
    FlatNeeds(fs[..k]);
    CompleteIsClosed(g, 0, Drop(args, k));
    Joined(f, g, 0, args, 0);
    OnlyNeeded(g, 0, Drop(args, k), 1, 0);
    assert Take(Drop(args, k), 1) == [args[k]];
  }
}
