/** The command-line tokenizer of src/client/tokenizer.c. */
module Tokenizer {
  import opened Bytes

  const SPACE: byte := 32
  const NEWLINE: byte := 10
  const TAB: byte := 9
  const QUOTE: byte := 39
  const DOUBLE_QUOTE: byte := 34
  const BACKSLASH: byte := 92
  const HASH: byte := 35
  const BANG: byte := 33

  /** Marks the place of an opening quote; it starts a word but is not part of it. */
  const EMPTY: byte := 2

  predicate IsSeparator(c: byte)
  {
    c == SPACE || c == NEWLINE || c == TAB
  }

  predicate IsQuote(c: byte)
  {
    c == QUOTE || c == DOUBLE_QUOTE
  }

  /** A line, as a C string. */
  predicate Line(line: seq<byte>)
  {
    0 !in line
  }

  datatype Result = Dangling | Words(words: seq<seq<byte>>)

  // ---------- The reference: one pass ----------

  /** What a character adds to a word. */
  function Visible(c: byte): seq<byte>
  {
    if c == EMPTY then [] else [c]
  }

  function Extended(word: Option<seq<byte>>, s: seq<byte>): Option<seq<byte>>
  {
    Some((if word.Some? then word.value else []) + s)
  }

  function Push(word: Option<seq<byte>>, r: Result): Result
  {
    if word.None? || r.Dangling? then r else Words([word.value] + r.words)
  }

  /** Read the line from position i on, inside `quote` (0 for none), after a backslash
      or not, in the middle of `word` if there is one. */
  function Lex(line: seq<byte>, i: nat, quote: byte, escaped: bool, word: Option<seq<byte>>): Result
    decreases |line| - i
  {
    if i >= |line| || (line[i] == HASH && !escaped && quote == 0) then
      if escaped || quote != 0 then Dangling else Push(word, Words([]))
    else
      var c := line[i];
      if !escaped && c == BACKSLASH then Lex(line, i + 1, quote, true, word)
      else if !escaped && quote == 0 && IsQuote(c) then Lex(line, i + 1, c, false, Extended(word, []))
      else if !escaped && quote == c then Lex(line, i + 1, 0, false, word)
      else if !escaped && quote == 0 && IsSeparator(c) then Push(word, Lex(line, i + 1, 0, false, None))
      else Lex(line, i + 1, quote, false, Extended(word, Visible(c)))
  }

  /** The quoting state alone: true if the line ends inside a quote or after a backslash. */
  predicate EndsOpen(line: seq<byte>, i: nat, quote: byte, escaped: bool)
    decreases |line| - i
  {
    if i >= |line| then escaped || quote != 0
    else
      var c := line[i];
      if escaped then EndsOpen(line, i + 1, quote, false)
      else if c == BACKSLASH then EndsOpen(line, i + 1, quote, true)
      else if quote != 0 then EndsOpen(line, i + 1, if c == quote then 0 else quote, false)
      else if c == HASH then false
      else EndsOpen(line, i + 1, if IsQuote(c) then c else 0, false)
  }

  // ---------- First pass: marked characters ----------

  /** A character of the working buffer; `hard` when it was escaped or quoted. */
  datatype Mark = Mark(c: byte, hard: bool)

  function Cons(m: Mark, ms: Option<seq<Mark>>): Option<seq<Mark>>
  {
    if ms.None? then None else Some([m] + ms.value)
  }

  function Marks(line: seq<byte>, i: nat, quote: byte, escaped: bool): Option<seq<Mark>>
    decreases |line| - i
  {
    if i >= |line| || (line[i] == HASH && !escaped && quote == 0) then
      if escaped || quote != 0 then None else Some([])
    else
      var c := line[i];
      if !escaped && c == BACKSLASH then Marks(line, i + 1, quote, true)
      else if !escaped && IsQuote(c) && quote == 0 then Cons(Mark(EMPTY, true), Marks(line, i + 1, c, false))
      else if !escaped && quote == c then Marks(line, i + 1, 0, false)
      else Cons(Mark(c, escaped || quote != 0), Marks(line, i + 1, quote, false))
  }

  // ---------- Second pass: words ----------

  predicate Ends(m: Mark)
  {
    !m.hard && IsSeparator(m.c)
  }

  function Split(ms: seq<Mark>, k: nat, word: Option<seq<byte>>): seq<seq<byte>>
    decreases |ms| - k
  {
    if k >= |ms| then (if word.Some? then [word.value] else [])
    else if Ends(ms[k]) then (if word.Some? then [word.value] else []) + Split(ms, k + 1, None)
    else Split(ms, k + 1, Extended(word, Visible(ms[k].c)))
  }

  lemma {:induction false} SplitShift(m: Mark, ms: seq<Mark>, k: nat, word: Option<seq<byte>>)
    ensures Split([m] + ms, k + 1, word) == Split(ms, k, word)
    decreases |ms| - k
  {
    if k < |ms| {
      if Ends(ms[k]) {
        SplitShift(m, ms, k + 1, None);
      } else {
        SplitShift(m, ms, k + 1, Extended(word, Visible(ms[k].c)));
      }
    }
  }

  /** The two passes agree with the one-pass lexer from any state. */
  lemma {:induction false} TwoPasses(line: seq<byte>, i: nat, quote: byte, escaped: bool, word: Option<seq<byte>>)
    ensures Lex(line, i, quote, escaped, word) ==
      match Marks(line, i, quote, escaped)
      case None => Dangling
      case Some(ms) => Words(Split(ms, 0, word))
    decreases |line| - i
  {
    if i < |line| && !(line[i] == HASH && !escaped && quote == 0) {
      var c := line[i];
      if !escaped && c == BACKSLASH {
        TwoPasses(line, i + 1, quote, true, word);
      } else if !escaped && IsQuote(c) && quote == 0 {
        TwoPasses(line, i + 1, c, false, Extended(word, []));
        SplitFirst(Mark(EMPTY, true), Marks(line, i + 1, c, false), word);
      } else if !escaped && quote == c {
        TwoPasses(line, i + 1, 0, false, word);
      } else {
        var m := Mark(c, escaped || quote != 0);
        SplitFirst(m, Marks(line, i + 1, quote, false), word);
        TwoPasses(line, i + 1, quote, false, if Ends(m) then None else Extended(word, Visible(c)));
      }
    }
  }

  lemma {:induction false} SplitFirst(m: Mark, ms: Option<seq<Mark>>, word: Option<seq<byte>>)
    ensures ms.Some? ==>
      && (Ends(m) ==>
          Split([m] + ms.value, 0, word) == (if word.Some? then [word.value] else []) + Split(ms.value, 0, None))
      && (!Ends(m) ==> Split([m] + ms.value, 0, word) == Split(ms.value, 0, Extended(word, Visible(m.c))))
  {
    if ms.Some? {
      SplitShift(m, ms.value, 0, if Ends(m) then None else Extended(word, Visible(m.c)));
    }
  }

  /** The line is refused exactly when it ends inside a quote or after a backslash. */
  lemma {:induction false} DanglingIff(line: seq<byte>, i: nat, quote: byte, escaped: bool, word: Option<seq<byte>>)
    requires Line(line) && (quote == 0 || IsQuote(quote))
    ensures Lex(line, i, quote, escaped, word) == Dangling <==> EndsOpen(line, i, quote, escaped)
    decreases |line| - i
  {
    if i < |line| && !(line[i] == HASH && !escaped && quote == 0) {
      var c := line[i];
      assert c in line;
      if !escaped && c == BACKSLASH {
        DanglingIff(line, i + 1, quote, true, word);
      } else if !escaped && IsQuote(c) && quote == 0 {
        DanglingIff(line, i + 1, c, false, Extended(word, []));
      } else if !escaped && quote == c {
        DanglingIff(line, i + 1, 0, false, word);
      } else if !escaped && quote == 0 && IsSeparator(c) {
        DanglingIff(line, i + 1, 0, false, None);
      } else {
        DanglingIff(line, i + 1, quote, false, Extended(word, Visible(c)));
      }
    }
  }

  // ---------- Rendering ----------

  /** An argument in quotes: quotes of that kind and backslashes are escaped. */
  function Quoted(arg: seq<byte>, q: byte, i: nat := 0): seq<byte>
    decreases |arg| - i
  {
    if i >= |arg| then [q]
    else (if arg[i] == q || arg[i] == BACKSLASH then [BACKSLASH, arg[i]] else [arg[i]]) + Quoted(arg, q, i + 1)
  }

  /** An argument with every character escaped. */
  function Escaped(arg: seq<byte>, i: nat := 0): seq<byte>
    decreases |arg| - i
  {
    if i >= |arg| then [] else [BACKSLASH, arg[i]] + Escaped(arg, i + 1)
  }

  /** How an argument is written: in quotes, or escaped if it is not empty. */
  datatype Style = InQuotes(q: byte) | WithBackslashes

  predicate Suits(style: Style, arg: seq<byte>)
  {
    match style
    case InQuotes(q) => IsQuote(q)
    case WithBackslashes => arg != []
  }

  function Render(arg: seq<byte>, style: Style): seq<byte>
  {
    match style
    case InQuotes(q) => [q] + Quoted(arg, q)
    case WithBackslashes => Escaped(arg)
  }

  /** The arguments from the k-th on, each followed by a space. */
  function RenderAll(args: seq<seq<byte>>, styles: seq<Style>, k: nat := 0): seq<byte>
    requires |styles| == |args|
    decreases |args| - k
  {
    if k >= |args| then [] else Render(args[k], styles[k]) + [SPACE] + RenderAll(args, styles, k + 1)
  }

  predicate Renderable(arg: seq<byte>)
  {
    0 !in arg && EMPTY !in arg
  }

  lemma {:induction false} ExtendedNext(word: Option<seq<byte>>, arg: seq<byte>, i: nat)
    requires i < |arg|
    ensures Extended(Extended(word, [arg[i]]), arg[i + 1..]) == Extended(word, arg[i..])
  {
    var begun := if word.Some? then word.value else [];
    assert begun + [arg[i]] + arg[i + 1..] == begun + arg[i..];
  }

  lemma {:induction false} ExtendedEnd(word: seq<byte>, arg: seq<byte>)
    ensures Extended(Some(word), arg[|arg|..]) == Some(word)
  {
    assert word + arg[|arg|..] == word;
  }

  /** What is left of a quoted text is added to the word. */
  lemma {:induction false} LexQuoted(line: seq<byte>, p: nat, arg: seq<byte>, q: byte, i: nat, rest: seq<byte>,
      word: Option<seq<byte>>)
    requires IsQuote(q) && Renderable(arg) && i <= |arg| && p <= |line| && line[p..] == Quoted(arg, q, i) + rest
    requires word.Some?
    ensures |rest| <= |line| && Lex(line, p, q, false, word) ==
      Lex(line, |line| - |rest|, 0, false, Extended(word, arg[i..]))
    decreases |arg| - i
  {
    var s := line[p..];
    if i == |arg| {
      ExtendedEnd(word.value, arg);
      assert line[p] == s[0] == q;
      assert p + 1 == |line| - |rest|;
    } else {
      var c := arg[i];
      assert c in arg;
      ExtendedNext(word, arg, i);
      if c == q || c == BACKSLASH {
        assert line[p] == s[0] == BACKSLASH && line[p + 1] == s[1] == c;
        assert line[p + 2..] == s[2..] == Quoted(arg, q, i + 1) + rest;
        LexQuoted(line, p + 2, arg, q, i + 1, rest, Extended(word, Visible(c)));
      } else {
        assert line[p] == s[0] == c;
        assert line[p + 1..] == s[1..] == Quoted(arg, q, i + 1) + rest;
        LexQuoted(line, p + 1, arg, q, i + 1, rest, Extended(word, Visible(c)));
      }
    }
  }

  /** What is left of an escaped text is added to the word, or starts it. */
  lemma {:induction false} LexEscaped(line: seq<byte>, p: nat, arg: seq<byte>, i: nat, rest: seq<byte>,
      word: Option<seq<byte>>)
    requires Renderable(arg) && i <= |arg| && p <= |line| && line[p..] == Escaped(arg, i) + rest
    requires i < |arg| || word.Some?
    ensures |rest| <= |line| && Lex(line, p, 0, false, word) ==
      Lex(line, |line| - |rest|, 0, false, Extended(word, arg[i..]))
    decreases |arg| - i
  {
    var s := line[p..];
    if i == |arg| {
      ExtendedEnd(word.value, arg);
      assert Escaped(arg, i) + rest == rest;
      assert p == |line| - |rest|;
    } else {
      var c := arg[i];
      assert c in arg;
      ExtendedNext(word, arg, i);
      assert line[p] == s[0] == BACKSLASH && line[p + 1] == s[1] == c;
      assert line[p + 2..] == s[2..] == Escaped(arg, i + 1) + rest;
      assert Lex(line, p, 0, false, word) == Lex(line, p + 1, 0, true, word) ==
        Lex(line, p + 2, 0, false, Extended(word, Visible(c)));
      LexEscaped(line, p + 2, arg, i + 1, rest, Extended(word, Visible(c)));
    }
  }

  lemma {:induction false} LexOpens(line: seq<byte>, p: nat, q: byte, word: Option<seq<byte>>)
    requires p < |line| && line[p] == q && IsQuote(q)
    ensures Lex(line, p, 0, false, word) == Lex(line, p + 1, q, false, Extended(word, []))
  {
  }

  lemma {:induction false} Whole(word: Option<seq<byte>>, arg: seq<byte>)
    ensures Extended(None, arg[0..]) == Some(arg) && Extended(Extended(word, []), arg[0..]) == Extended(word, arg)
  {
    var begun := if word.Some? then word.value else [];
    assert [] + arg[0..] == arg && begun + [] == begun;
  }

  /** One rendered argument is read back whole. */
  lemma {:induction false} LexRendered(line: seq<byte>, p: nat, arg: seq<byte>, style: Style, rest: seq<byte>)
    requires Suits(style, arg) && Renderable(arg) && p <= |line| && line[p..] == Render(arg, style) + rest
    ensures |rest| <= |line| && Lex(line, p, 0, false, None) == Lex(line, |line| - |rest|, 0, false, Some(arg))
  {
    hide Lex, Quoted, Escaped, Renderable;
    match style
    case InQuotes(q) =>
      var s := line[p..];
      assert line[p] == s[0] == q;
      assert line[p + 1..] == s[1..] == Quoted(arg, q, 0) + rest;
      LexOpens(line, p, q, None);
      LexQuoted(line, p + 1, arg, q, 0, rest, Extended(None, []));
      Whole(None, arg);
    case WithBackslashes =>
      LexEscaped(line, p, arg, 0, rest, None);
      Whole(None, arg);
  }

  lemma {:induction false} LexSeparator(line: seq<byte>, p: nat, word: seq<byte>)
    requires p < |line| && line[p] == SPACE
    ensures Lex(line, p, 0, false, Some(word)) == Push(Some(word), Lex(line, p + 1, 0, false, None))
  {
  }

  lemma {:induction false} LexNothing(line: seq<byte>)
    ensures Lex(line, |line|, 0, false, None) == Words([])
  {
  }

  /** Any list of arguments is recovered from its rendering, empty ones included. */
  lemma {:induction false} RenderRoundTrip(args: seq<seq<byte>>, styles: seq<Style>, line: seq<byte>, p: nat, k: nat)
    requires |styles| == |args| && forall x :: 0 <= x < |args| ==> Renderable(args[x]) && Suits(styles[x], args[x])
    requires k <= |args| && p <= |line| && line[p..] == RenderAll(args, styles, k)
    ensures Lex(line, p, 0, false, None) == Words(args[k..])
    decreases |args| - k
  {
    hide Lex, Render;
    if k == |args| {
      assert |line[p..]| == 0;
      LexNothing(line);
    } else {
      var rest := [SPACE] + RenderAll(args, styles, k + 1);
      assert line[p..] == Render(args[k], styles[k]) + rest;
      LexRendered(line, p, args[k], styles[k], rest);
      var e := |line| - |rest|;
      assert line[e..] == line[p..][e - p..] == rest;
      assert line[e] == line[e..][0] == SPACE;
      assert line[e + 1..] == line[e..][1..] == RenderAll(args, styles, k + 1);
      LexSeparator(line, e, args[k]);
      RenderRoundTrip(args, styles, line, e + 1, k + 1);
      assert args[k..] == [args[k]] + args[k + 1..];
    }
  }

  // ---------- The procedure ----------

  /** The first n pairs of the buffer hold the marks, the rest is null. */
  ghost predicate Holds(input: seq<byte>, ms: seq<Mark>)
  {
    && 2 * |ms| <= |input|
    && (forall k :: 0 <= k < |ms| ==> input[2 * k] == ms[k].c && input[2 * k + 1] == if ms[k].hard then BANG else SPACE)
    && (forall j :: 2 * |ms| <= j < |input| ==> input[j] == 0)
  }

  ghost function Append(ms: seq<Mark>, rest: Option<seq<Mark>>): Option<seq<Mark>>
  {
    if rest.None? then None else Some(ms + rest.value)
  }

  lemma {:induction false} AppendCons(ms: seq<Mark>, m: Mark, rest: Option<seq<Mark>>)
    ensures Append(ms, Cons(m, rest)) == Append(ms + [m], rest)
  {
    if rest.Some? {
      assert ms + ([m] + rest.value) == ms + [m] + rest.value;
    }
  }

  method Put(input: array<byte>, ipos: nat, m: Mark, ghost ms: seq<Mark>)
    requires Holds(input[..], ms) && ipos == 2 * |ms| && ipos + 2 <= input.Length
    modifies input
    ensures Holds(input[..], ms + [m])
  {
    input[ipos] := m.c;
    input[ipos + 1] := if m.hard then BANG else SPACE;
  }

  /** First pass: unquote, into pairs of a character and a flag. */
  method Unquote(line: seq<byte>, input: array<byte>) returns (ok: bool, ipos: nat)
    requires Line(line) && input.Length == 2 * |line| + 3 && Holds(input[..], [])
    modifies input
    ensures ok == Marks(line, 0, 0, false).Some?
    ensures ok ==> Holds(input[..], Marks(line, 0, 0, false).value)
    ensures ok ==> ipos == 2 * |Marks(line, 0, 0, false).value| <= 2 * |line|
    ensures ok ==> forall m :: m in Marks(line, 0, 0, false).value ==> m.c != 0
  {
    hide Holds;
    ghost var ms: seq<Mark> := [];
    var quote: byte, escaped := 0, false;
    ipos := 0;
    var pos := 0;
    ghost var all := Marks(line, 0, 0, false);
    assert all.Some? ==> [] + all.value == all.value;
    while pos < |line|
      invariant pos <= |line| && ipos == 2 * |ms| && |ms| <= pos && input.Length == 2 * |line| + 3
      invariant Holds(input[..], ms) && forall m :: m in ms ==> m.c != 0
      invariant Append(ms, Marks(line, pos, quote, escaped)) == all
    {
      var c := line[pos];
      assert c in line;
      if c == HASH && !escaped && quote == 0 {
        break;
      }
      if !escaped && c == BACKSLASH {
        escaped := true;
      } else if !escaped && IsQuote(c) && quote == 0 {
        AppendCons(ms, Mark(EMPTY, true), Marks(line, pos + 1, c, false));
        Put(input, ipos, Mark(EMPTY, true), ms);
        ms := ms + [Mark(EMPTY, true)];
        ipos := ipos + 2;
        quote := c;
      } else if !escaped && quote == c {
        quote := 0;
      } else {
        AppendCons(ms, Mark(c, escaped || quote != 0), Marks(line, pos + 1, quote, false));
        Put(input, ipos, Mark(c, escaped || quote != 0), ms);
        ms := ms + [Mark(c, escaped || quote != 0)];
        ipos := ipos + 2;
        escaped := false;
      }
      pos := pos + 1;
    }
    assert ms + [] == ms;
    ok := !escaped && quote == 0;
  }

  /** The visible characters of the marks from a to b. */
  ghost function TextOf(ms: seq<Mark>, a: nat, b: nat): seq<byte>
    requires a <= b <= |ms|
    decreases b - a
  {
    if a == b then [] else TextOf(ms, a, b - 1) + Visible(ms[b - 1].c)
  }

  method CopyWord(input: array<byte>, wbegin: nat, pos: nat, ghost ms: seq<Mark>) returns (word: seq<byte>)
    requires Holds(input[..], ms) && wbegin <= pos <= |ms|
    ensures word == TextOf(ms, wbegin, pos)
  {
    word := [];
    var i := wbegin;
    while i != pos
      invariant wbegin <= i <= pos && word == TextOf(ms, wbegin, i)
      decreases pos - i
    {
      assert input[2 * i] == input[..][2 * i] == ms[i].c;
      if input[2 * i] != EMPTY {
        word := word + [input[2 * i]];
      }
      i := i + 1;
    }
  }

  /** Where the second pass stands. */
  ghost function Pending(ms: seq<Mark>, wbegin: int, pos: nat): Option<seq<byte>>
    requires -1 <= wbegin <= pos <= |ms|
  {
    if wbegin == -1 then None else Some(TextOf(ms, wbegin, pos))
  }

  lemma {:induction false} ReadsMark(input: seq<byte>, ms: seq<Mark>, k: nat)
    requires Holds(input, ms) && 2 * |ms| < |input| && k < |ms|
    ensures input[2 * k] == ms[k].c && (input[2 * k + 1] == SPACE && IsSeparator(input[2 * k]) <==> Ends(ms[k]))
  {
  }

  /** Second pass: split at the separators that are not marked. */
  method SplitWords(input: array<byte>, ghost ms: seq<Mark>) returns (argv: seq<seq<byte>>)
    requires Holds(input[..], ms) && 2 * |ms| < input.Length && forall m :: m in ms ==> m.c != 0
    requires ms != [] && Ends(ms[|ms| - 1])
    ensures argv == Split(ms, 0, None)
  {
    hide Split, Holds, Ends, IsSeparator, TextOf;
    argv := [];
    var wbegin := -1;
    var pos := 0;
    assert [] + Split(ms, 0, None) == Split(ms, 0, None);
    NullAtEnd(input[..], ms, 0);
    while input[2 * pos] != 0
      invariant pos <= |ms| && (input[2 * pos] != 0 <==> pos < |ms|)
      invariant -1 <= wbegin <= pos && (wbegin != -1 ==> wbegin < pos)
      invariant argv + Split(ms, pos, Pending(ms, wbegin, pos)) == Split(ms, 0, None)
      invariant pos == |ms| ==> wbegin == -1
      decreases |ms| - pos
    {
      ReadsMark(input[..], ms, pos);
      var ends := input[2 * pos + 1] == SPACE && IsSeparator(input[2 * pos]);
      SplitStep(ms, pos, Pending(ms, wbegin, pos));
      if wbegin == -1 {
        if !ends {
          wbegin := pos;
          OneMark(ms, pos);
        }
      } else if ends {
        var word := CopyWord(input, wbegin, pos, ms);
        assert argv + ([word] + Split(ms, pos + 1, None)) == argv + [word] + Split(ms, pos + 1, None);
        argv := argv + [word];
        wbegin := -1;
      } else {
        MoreMarks(ms, wbegin, pos);
      }
      pos := pos + 1;
      NullAtEnd(input[..], ms, pos);
    }
    SplitEnd(ms);
    assert argv + [] == argv;
  }

  lemma {:induction false} NullAtEnd(input: seq<byte>, ms: seq<Mark>, k: nat)
    requires Holds(input, ms) && 2 * |ms| < |input| && k <= |ms| && forall m :: m in ms ==> m.c != 0
    ensures input[2 * k] != 0 <==> k < |ms|
  {
    if k < |ms| {
      assert ms[k] in ms;
    }
  }

  lemma {:induction false} OneMark(ms: seq<Mark>, pos: nat)
    requires pos < |ms|
    ensures Extended(None, Visible(ms[pos].c)) == Some(TextOf(ms, pos, pos + 1))
  {
    assert TextOf(ms, pos, pos) == [];
  }

  lemma {:induction false} MoreMarks(ms: seq<Mark>, wbegin: nat, pos: nat)
    requires wbegin <= pos < |ms|
    ensures Extended(Some(TextOf(ms, wbegin, pos)), Visible(ms[pos].c)) == Some(TextOf(ms, wbegin, pos + 1))
  {
  }

  lemma {:induction false} SplitStep(ms: seq<Mark>, k: nat, word: Option<seq<byte>>)
    requires k < |ms|
    ensures Split(ms, k, word) ==
      if Ends(ms[k]) then (if word.Some? then [word.value] else []) + Split(ms, k + 1, None)
      else Split(ms, k + 1, Extended(word, Visible(ms[k].c)))
  {
  }

  lemma {:induction false} SplitEnd(ms: seq<Mark>)
    ensures Split(ms, |ms|, None) == []
  {
  }

  /** A separator added at the end changes nothing. */
  lemma {:induction false} SplitWithSeparator(ms: seq<Mark>, k: nat, word: Option<seq<byte>>)
    requires k <= |ms|
    ensures Split(ms + [Mark(SPACE, false)], k, word) == Split(ms, k, word)
    decreases |ms| - k
  {
    var ms' := ms + [Mark(SPACE, false)];
    if k < |ms| {
      SplitWithSeparator(ms, k + 1, if Ends(ms[k]) then None else Extended(word, Visible(ms[k].c)));
    } else {
      assert Split(ms', k + 1, None) == [];
    }
  }

  /** tokenize_line(): both passes, over a buffer of twice the length plus 3. */
  method Tokenize(line: seq<byte>) returns (r: Result)
    requires Line(line)
    ensures r == Lex(line, 0, 0, false, None)
  {
    hide Holds, Split, Marks, Lex;
    TwoPasses(line, 0, 0, false, None);
    var input := new byte[2 * |line| + 3](_ => 0);
    EmptyBuffer(input[..]);
    var ok, ipos := Unquote(line, input);
    if !ok {
      return Dangling;
    }
    ghost var ms := Marks(line, 0, 0, false).value;
    Put(input, ipos, Mark(SPACE, false), ms);
    SplitWithSeparator(ms, 0, None);
    var argv := SplitWords(input, ms + [Mark(SPACE, false)]);
    r := Words(argv);
  }

  lemma {:induction false} EmptyBuffer(input: seq<byte>)
    requires forall j :: 0 <= j < |input| ==> input[j] == 0
    ensures Holds(input, [])
  {
  }
}
