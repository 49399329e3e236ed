/** The shell-style splitting `shlex.split` applies to a command part: words separated by
    whitespace, with single- or double-quoted stretches kept together (quotes removed,
    adjoining text joined into the same word). An unclosed quote is an error. */
module Tokenizer {
  import opened Wrappers

  /** The separators `shlex` uses: space, tab, carriage return and line feed. */
  predicate IsSeparator(c: char) {
    c == ' ' || c == '\t' || c == '\r' || c == '\n'
  }

  predicate IsQuote(c: char) {
    c == '\'' || c == '"'
  }

  /** The scanner's state: the words finished so far, the word being read (None between
      words) and the quote character that is open, if any. */
  datatype Lexer = Lexer(words: seq<string>, word: Option<string>, quote: Option<char>)

  const Start := Lexer([], None, None)

  function Step(st: Lexer, c: char): Lexer {
    match st.quote
    case Some(q) =>
      if c == q then st.(quote := None) else st.(word := Some(st.word.GetOr("") + [c]))
    case None =>
      if IsSeparator(c) then
        if st.word.Some? then Lexer(st.words + [st.word.value], None, None) else st
      else if IsQuote(c) then
        st.(word := Some(st.word.GetOr("")), quote := Some(c))
      else
        st.(word := Some(st.word.GetOr("") + [c]))
  }

  function Scan(st: Lexer, s: string): Lexer
    decreases |s|
  {
    if s == [] then st else Scan(Step(st, s[0]), s[1..])
  }

  /** `shlex.split(s)`, or None where it raises "No closing quotation". */
  function Tokenize(s: string): Option<seq<string>> {
    var st := Scan(Start, s);
    if st.quote.Some? then None
    else if st.word.Some? then Some(st.words + [st.word.value])
    else Some(st.words)
  }

  lemma {:induction false} ScanConcat(st: Lexer, a: string, b: string)
    ensures Scan(st, a + b) == Scan(Scan(st, a), b)
    decreases |a|
  {
    if a == [] {
      assert a + b == b;
    } else {
      assert (a + b)[1..] == a[1..] + b;
      ScanConcat(Step(st, a[0]), a[1..], b);
    }
  }

  /** How a word is written on a command line so that it reads back as itself: bare when it
      is non-empty and has no separator or quote in it, inside double quotes otherwise. */
  function Render(w: string): string {
    if w != [] && forall i :: 0 <= i < |w| ==> !IsSeparator(w[i]) && !IsQuote(w[i]) then w
    else "\"" + w + "\""
  }

  /** The words rendered and separated by single spaces. */
  function CommandLine(words: seq<string>): string
    requires |words| > 0
  {
    if |words| == 1 then Render(words[0])
    else CommandLine(words[..|words| - 1]) + " " + Render(words[|words| - 1])
  }

  predicate NoDoubleQuote(w: string) {
    forall i :: 0 <= i < |w| ==> w[i] != '"'
  }

  /** Plain characters extend the word being read. */
  lemma {:induction false} ScanBare(done: seq<string>, w: string, t: string)
    requires forall i :: 0 <= i < |t| ==> !IsSeparator(t[i]) && !IsQuote(t[i])
    ensures Scan(Lexer(done, Some(w), None), t) == Lexer(done, Some(w + t), None)
    decreases |t|
  {
    if t == [] {
      assert w + t == w;
    } else {
      assert w + t == (w + [t[0]]) + t[1..];
      ScanBare(done, w + [t[0]], t[1..]);
    }
  }

  /** Inside double quotes every character but '"' is taken literally. */
  lemma {:induction false} ScanQuoted(done: seq<string>, w: string, t: string)
    requires NoDoubleQuote(t)
    ensures Scan(Lexer(done, Some(w), Some('"')), t) == Lexer(done, Some(w + t), Some('"'))
    decreases |t|
  {
    if t == [] {
      assert w + t == w;
    } else {
      assert w + t == (w + [t[0]]) + t[1..];
      ScanQuoted(done, w + [t[0]], t[1..]);
    }
  }

  /** Between words, a rendered word is read back as exactly that word. */
  lemma ScanRendered(done: seq<string>, w: string)
    requires NoDoubleQuote(w)
    ensures Scan(Lexer(done, None, None), Render(w)) == Lexer(done, Some(w), None)
  {
    if w != [] && forall i :: 0 <= i < |w| ==> !IsSeparator(w[i]) && !IsQuote(w[i]) {
      assert Render(w) == w;
      assert "" + [w[0]] == [w[0]];
      assert Step(Lexer(done, None, None), w[0]) == Lexer(done, Some([w[0]]), None);
      ScanBare(done, [w[0]], w[1..]);
      assert [w[0]] + w[1..] == w;
    } else {
      var open := Lexer(done, Some(""), Some('"'));
      ScanConcat(Lexer(done, None, None), "\"", w + "\"");
      assert Render(w) == "\"" + (w + "\"");
      ScanConcat(open, w, "\"");
      ScanQuoted(done, "", w);
      assert "" + w == w;
    }
  }

  lemma {:induction false} ScanCommandLine(words: seq<string>)
    requires |words| > 0
    requires forall k :: 0 <= k < |words| ==> NoDoubleQuote(words[k])
    ensures Scan(Start, CommandLine(words))
         == Lexer(words[..|words| - 1], Some(words[|words| - 1]), None)
    decreases |words|
  {
    var n := |words|;
    if n == 1 {
      ScanRendered([], words[0]);
    } else {
      var front := words[..n - 1];
      ScanCommandLine(front);
      var head := CommandLine(front);
      ScanConcat(Start, head + " ", Render(words[n - 1]));
      ScanConcat(Start, head, " ");
      assert front[..n - 2] + [front[n - 2]] == front;
      ScanRendered(front, words[n - 1]);
    }
  }

  /** Splitting a command line built from words (none containing '"') gives back those
      words: the tokenizer is a left inverse of `CommandLine`. */
  lemma TokenizeCommandLine(words: seq<string>)
    requires |words| > 0
    requires forall k :: 0 <= k < |words| ==> NoDoubleQuote(words[k])
    ensures Tokenize(CommandLine(words)) == Some(words)
  {
    ScanCommandLine(words);
    TokenizeOpenWord(CommandLine(words), words);
  }

  /** Text that ends inside the last of `words`, outside quotes, with the others finished,
      yields exactly `words`. */
  lemma TokenizeOpenWord(s: string, words: seq<string>)
    requires |words| > 0
    requires Scan(Start, s) == Lexer(words[..|words| - 1], Some(words[|words| - 1]), None)
    ensures Tokenize(s) == Some(words)
  {
    assert words[..|words| - 1] + [words[|words| - 1]] == words;
  }

  /** A quote-free stretch never opens a quote. */
  lemma {:induction false} ScanUnquoted(st: Lexer, t: string)
    requires st.quote.None?
    requires forall i :: 0 <= i < |t| ==> !IsQuote(t[i])
    ensures Scan(st, t).quote.None?
    decreases |t|
  {
    if t != [] {
      ScanUnquoted(Step(st, t[0]), t[1..]);
    }
  }

  /** Once a quote is open, text without that quote character leaves it open. */
  lemma {:induction false} ScanStaysQuoted(st: Lexer, q: char, t: string)
    requires st.quote == Some(q)
    requires forall i :: 0 <= i < |t| ==> t[i] != q
    ensures Scan(st, t).quote == Some(q)
    decreases |t|
  {
    if t != [] {
      ScanStaysQuoted(Step(st, t[0]), q, t[1..]);
    }
  }

  /** A quote, single or double, opened outside quotes and never closed makes tokenizing
      fail ("No closing quotation"), whatever came before it. */
  lemma UnclosedQuoteFails(before: string, q: char, after: string)
    requires IsQuote(q) && Scan(Start, before).quote.None?
    requires forall i :: 0 <= i < |after| ==> after[i] != q
    ensures Tokenize(before + [q] + after).None?
  {
    ScanConcat(Start, before + [q], after);
    ScanConcat(Start, before, [q]);
    var st := Scan(Start, before);
    assert Scan(st, [q]) == Step(st, q) by {
      assert [q][1..] == [];
    }
    ScanStaysQuoted(Scan(Start, before + [q]), q, after);
  }

  /** An apostrophe in a name, as in `O'Neil.exe`, is an unclosed single quote: tokenizing
      fails and the whole command part becomes the executable. */
  lemma ApostropheFails()
    ensures Tokenize("O'Neil.exe").None?
  {
    var before, after := "O", "Neil.exe";
    ScanUnquoted(Start, before);
    assert before + ['\''] + after == "O'Neil.exe";
    UnclosedQuoteFails(before, '\'', after);
  }

  /** Text made only of separators holds no words at all. */
  lemma {:induction false} ScanSeparators(done: seq<string>, t: string)
    requires forall i :: 0 <= i < |t| ==> IsSeparator(t[i])
    ensures Scan(Lexer(done, None, None), t) == Lexer(done, None, None)
    decreases |t|
  {
    if t != [] {
      ScanSeparators(done, t[1..]);
    }
  }

  lemma BlankTokenizesEmpty(t: string)
    requires forall i :: 0 <= i < |t| ==> IsSeparator(t[i])
    ensures Tokenize(t) == Some([])
  {
    ScanSeparators([], t);
  }
}
