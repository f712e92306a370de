/** The lines of src/client/tokenizer.c as they are typed: words made of bare, escaped and
    quoted pieces, blanks of any length between them, a comment at the end. */
module TokenizerWords {
  import opened Bytes
  import opened Tokenizer

  /** A piece of a word.  Inside quotes, quotes of that kind and backslashes are escaped. */
  datatype Piece =
    | Bare(text: seq<byte>)
    | Backslashed(text: seq<byte>)
    | Single(text: seq<byte>)
    | Double(text: seq<byte>)

  /** A bare piece has no blank, quote, hash sign or backslash.  Only quotes can be empty. */
  predicate Fits(p: Piece)
  {
    && 0 !in p.text && 2 !in p.text
    && match p
       case Bare(t) => t != [] && forall k :: 0 <= k < |t| ==> t[k] !in {9, 10, 32, 34, 35, 39, 92}
       case Backslashed(t) => t != []
       case _ => true
  }

  function Typed(p: Piece): seq<byte>
  {
    match p
    case Bare(t) => t
    case Backslashed(t) => Escaped(t)
    case Single(t) => [39] + Quoted(t, 39)
    case Double(t) => [34] + Quoted(t, 34)
  }

  function TypedFrom(pieces: seq<Piece>, k: nat): seq<byte>
    decreases |pieces| - k
  {
    if k >= |pieces| then [] else Typed(pieces[k]) + TypedFrom(pieces, k + 1)
  }

  function TextFrom(pieces: seq<Piece>, k: nat): seq<byte>
    decreases |pieces| - k
  {
    if k >= |pieces| then [] else pieces[k].text + TextFrom(pieces, k + 1)
  }

  /** Spaces, tabs and newlines. */
  predicate Blank(gap: seq<byte>)
  {
    forall k :: 0 <= k < |gap| ==> gap[k] in {9, 10, 32}
  }

  /** A word, and the blanks that follow it. */
  datatype Item = Item(pieces: seq<Piece>, gap: seq<byte>)

  function LineFrom(items: seq<Item>, k: nat): seq<byte>
    decreases |items| - k
  {
    if k >= |items| then [] else TypedFrom(items[k].pieces, 0) + (items[k].gap + LineFrom(items, k + 1))
  }

  function WordsFrom(items: seq<Item>, k: nat): seq<seq<byte>>
    decreases |items| - k
  {
    if k >= |items| then [] else [TextFrom(items[k].pieces, 0)] + WordsFrom(items, k + 1)
  }

  predicate AllFit(pieces: seq<Piece>)
  {
    forall k :: 0 <= k < |pieces| ==> Fits(pieces[k])
  }

  /** Something is typed for every word, and something blank between two words. */
  ghost predicate Separated(items: seq<Item>)
  {
    && (forall k :: 0 <= k < |items| ==> items[k].pieces != [] && AllFit(items[k].pieces) && Blank(items[k].gap))
    && (forall k :: 0 <= k < |items| - 1 ==> items[k].gap != [])
  }

  // ---------- Pieces ----------

  lemma {:induction false} LexBare(line: seq<byte>, p: nat, t: seq<byte>, i: nat, rest: seq<byte>,
      word: Option<seq<byte>>)
    requires Fits(Bare(t)) && i <= |t| && p <= |line| && line[p..] == t[i..] + rest
    requires i < |t| || word.Some?
    ensures |rest| <= |line| && Lex(line, p, 0, false, word) ==
      Lex(line, |line| - |rest|, 0, false, Extended(word, t[i..]))
    decreases |t| - i
  {
    var s := line[p..];
    if i == |t| {
      ExtendedEnd(word.value, t);
      assert t[i..] + rest == rest;
      assert p == |line| - |rest|;
    } else {
      var c := t[i];
      assert c in t;
      ExtendedNext(word, t, i);
      assert line[p] == s[0] == c;
      assert line[p + 1..] == s[1..] == t[i + 1..] + rest;
      assert Lex(line, p, 0, false, word) == Lex(line, p + 1, 0, false, Extended(word, Visible(c)));
      LexBare(line, p + 1, t, i + 1, rest, Extended(word, Visible(c)));
    }
  }

  lemma {:induction false} LexPiece(line: seq<byte>, p: nat, piece: Piece, rest: seq<byte>, word: Option<seq<byte>>)
    requires Fits(piece) && p <= |line| && line[p..] == Typed(piece) + rest
    ensures |rest| <= |line| && Lex(line, p, 0, false, word) ==
      Lex(line, |line| - |rest|, 0, false, Extended(word, piece.text))
  {
    hide Lex, Quoted, Escaped, Extended;
    var t := piece.text;
    assert t[0..] == t;
    match piece
    case Bare(_) => LexBare(line, p, t, 0, rest, word);
    case Backslashed(_) => LexEscaped(line, p, t, 0, rest, word);
    case Single(_) => LexInside(line, p, t, 39, rest, word);
    case Double(_) => LexInside(line, p, t, 34, rest, word);
  }

  lemma {:induction false} LexInside(line: seq<byte>, p: nat, t: seq<byte>, q: byte, rest: seq<byte>,
      word: Option<seq<byte>>)
    requires Renderable(t) && (q == 34 || q == 39) && p <= |line| && line[p..] == [q] + Quoted(t, q) + rest
    ensures |rest| <= |line| && Lex(line, p, 0, false, word) ==
      Lex(line, |line| - |rest|, 0, false, Extended(word, t))
  {
    hide Lex, Quoted, Renderable;
    var s := line[p..];
    assert line[p] == s[0] == q;
    assert line[p + 1..] == s[1..] == Quoted(t, q, 0) + rest;
    LexOpens(line, p, q, word);
    LexQuoted(line, p + 1, t, q, 0, rest, Extended(word, []));
    Whole(word, t);
  }

  /** The pieces of a word, one after the other, are joined. */
  lemma {:induction false} LexPieces(line: seq<byte>, p: nat, pieces: seq<Piece>, k: nat, rest: seq<byte>,
      word: Option<seq<byte>>)
    requires AllFit(pieces) && k <= |pieces| && p <= |line| && line[p..] == TypedFrom(pieces, k) + rest
    requires k < |pieces| || word.Some?
    ensures |rest| <= |line| && Lex(line, p, 0, false, word) ==
      Lex(line, |line| - |rest|, 0, false, Extended(word, TextFrom(pieces, k)))
    decreases |pieces| - k
  {
    hide Lex, Typed, Fits;
    if k == |pieces| {
      assert TypedFrom(pieces, k) + rest == rest;
      assert p == |line| - |rest|;
      ExtendedEnd(word.value, []);
    } else {
      var after := TypedFrom(pieces, k + 1) + rest;
      assert line[p..] == Typed(pieces[k]) + after;
      LexPiece(line, p, pieces[k], after, word);
      var e := |line| - |after|;
      assert line[e..] == line[p..][e - p..] == after;
      var longer := Extended(word, pieces[k].text);
      LexPieces(line, e, pieces, k + 1, rest, longer);
      Joined(word, pieces[k].text, TextFrom(pieces, k + 1));
    }
  }

  lemma {:induction false} Joined(word: Option<seq<byte>>, a: seq<byte>, b: seq<byte>)
    ensures Extended(Extended(word, a), b) == Extended(word, a + b)
  {
    var begun := if word.Some? then word.value else [];
    assert begun + a + b == begun + (a + b);
  }

  // ---------- Lines ----------

  /** Blanks after a word end it, and mean nothing more. */
  lemma {:induction false} LexGap(line: seq<byte>, p: nat, gap: seq<byte>, k: nat, rest: seq<byte>,
      word: Option<seq<byte>>)
    requires Blank(gap) && k <= |gap| && p <= |line| && line[p..] == gap[k..] + rest
    requires k < |gap| || word.None?
    ensures |rest| <= |line|
    ensures Lex(line, p, 0, false, word) == Push(word, Lex(line, |line| - |rest|, 0, false, None))
    decreases |gap| - k
  {
    var s := line[p..];
    if k == |gap| {
      assert gap[k..] + rest == rest;
      assert p == |line| - |rest|;
    } else {
      assert line[p] == s[0] == gap[k];
      assert line[p + 1..] == s[1..] == gap[k + 1..] + rest;
      LexBlank(line, p, word);
      LexGap(line, p + 1, gap, k + 1, rest, None);
    }
  }

  lemma {:induction false} LexBlank(line: seq<byte>, p: nat, word: Option<seq<byte>>)
    requires p < |line| && line[p] in {9, 10, 32}
    ensures Lex(line, p, 0, false, word) == Push(word, Lex(line, p + 1, 0, false, None))
  {
  }

  /** Nothing more to read: the end of the line, or a comment. */
  lemma {:induction false} LexTail(line: seq<byte>, p: nat, word: Option<seq<byte>>)
    requires p == |line| || (p < |line| && line[p] == 35)
    ensures Lex(line, p, 0, false, word) == Push(word, Words([]))
  {
  }

  lemma {:induction false} LexItems(line: seq<byte>, p: nat, items: seq<Item>, k: nat, tail: seq<byte>)
    requires Separated(items) && k <= |items| && p <= |line| && line[p..] == LineFrom(items, k) + tail
    requires tail == [] || tail[0] == 35
    ensures Lex(line, p, 0, false, None) == Words(WordsFrom(items, k))
    decreases |items| - k
  {
    hide Lex, TypedFrom, TextFrom, AllFit, Blank;
    if k == |items| {
      assert line[p..] == tail;
      assert tail != [] ==> line[p] == line[p..][0];
      LexTail(line, p, None);
    } else {
      var after := items[k].gap + LineFrom(items, k + 1) + tail;
      var typed := TypedFrom(items[k].pieces, 0);
      assert line[p..] == typed + after;
      LexPieces(line, p, items[k].pieces, 0, after, None);
      var e := |line| - |after|;
      assert line[e..] == line[p..][e - p..] == after;
      var text := TextFrom(items[k].pieces, 0);
      assert Extended(None, text) == Some(text) by {
        assert [] + text == text;
      }
      LexAfter(line, e, items, k, tail, text);
    }
  }

  /** After a word: its gap and the items that follow, or the tail. */
  lemma {:induction false} LexAfter(line: seq<byte>, e: nat, items: seq<Item>, k: nat, tail: seq<byte>, text: seq<byte>)
    requires Separated(items) && k < |items| && e <= |line|
    requires line[e..] == items[k].gap + LineFrom(items, k + 1) + tail
    requires tail == [] || tail[0] == 35
    ensures Lex(line, e, 0, false, Some(text)) == Words([text] + WordsFrom(items, k + 1))
    decreases |items| - k, 0
  {
    hide Lex, TypedFrom, TextFrom, AllFit, Blank;
    var gap, rest := items[k].gap, LineFrom(items, k + 1) + tail;
    assert line[e..] == gap + rest;
    if gap == [] {
      assert line[e..] == tail;
      assert tail != [] ==> line[e] == line[e..][0];
      LexTail(line, e, Some(text));
    } else {
      assert gap[0..] == gap;
      LexGap(line, e, gap, 0, rest, Some(text));
      var n := |line| - |rest|;
      assert line[n..] == line[e..][n - e..] == rest;
      LexItems(line, n, items, k + 1, tail);
    }
  }

  /** A line of words, with blanks anywhere around them and a comment or nothing at the
      end, is read as those words: pieces that touch are one word, quotes and escapes
      disappear, and the comment is not looked at. */
  lemma {:induction false} LineMeansWords(lead: seq<byte>, items: seq<Item>, tail: seq<byte>)
    requires Blank(lead) && Separated(items) && (tail == [] || tail[0] == 35)
    ensures Lex(lead + LineFrom(items, 0) + tail, 0, 0, false, None) == Words(WordsFrom(items, 0))
  {
    hide Lex, LineFrom, WordsFrom, Separated, Blank;
    var rest := LineFrom(items, 0) + tail;
    var line := lead + LineFrom(items, 0) + tail;
    assert line[0..] == lead[0..] + rest;
    LexGap(line, 0, lead, 0, rest, None);
    assert line[|lead|..] == rest && |line| - |rest| == |lead|;
    LexItems(line, |lead|, items, 0, tail);
  }

  /** Bare words alone. */
  lemma {:induction false} BareWords(words: seq<seq<byte>>, gaps: seq<seq<byte>>, lead: seq<byte>)
    requires |gaps| == |words| && Blank(lead)
    requires forall k :: 0 <= k < |words| ==> Fits(Bare(words[k])) && Blank(gaps[k]) && gaps[k] != []
    ensures Lex(lead + Alternate(words, gaps, 0), 0, 0, false, None) == Words(words)
  {
    hide Lex, Fits, Blank;
    var items := seq(|words|, (k: nat) requires k < |words| => Item([Bare(words[k])], gaps[k]));
    BareLine(words, gaps, items, 0);
    assert words[0..] == words;
    LineMeansWords(lead, items, []);
    assert lead + LineFrom(items, 0) + [] == lead + Alternate(words, gaps, 0);
  }

  function Alternate(words: seq<seq<byte>>, gaps: seq<seq<byte>>, k: nat): seq<byte>
    requires |gaps| == |words|
    decreases |words| - k
  {
    if k >= |words| then [] else words[k] + (gaps[k] + Alternate(words, gaps, k + 1))
  }

  lemma {:induction false} BareLine(words: seq<seq<byte>>, gaps: seq<seq<byte>>, items: seq<Item>, k: nat)
    requires |gaps| == |items| == |words| && k <= |words|
    requires forall i :: 0 <= i < |words| ==> items[i] == Item([Bare(words[i])], gaps[i])
    ensures LineFrom(items, k) == Alternate(words, gaps, k) && WordsFrom(items, k) == words[k..]
    decreases |words| - k
  {
    if k < |words| {
      BareLine(words, gaps, items, k + 1);
      var pieces := items[k].pieces;
      assert pieces == [Bare(words[k])] && TypedFrom(pieces, 1) == [] && TextFrom(pieces, 1) == [];
      assert TypedFrom(pieces, 0) == words[k] + [] == words[k];
      assert TextFrom(pieces, 0) == words[k] + [] == words[k];
      assert words[k..] == [words[k]] + words[k + 1..];
    }
  }
}
