/** How a POSIX shell splits a command line into words, restricted to what
    the generated command strings use: blanks separate words and a
    single-quoted stretch is taken literally (with no escapes inside).
    Operators such as `&&` come out as words of their own. */
module ShellWords {
  import opened Wrappers
  import opened Seqs

  datatype Mode = Between | InWord(acc: string) | InQuote(acc: string)

  datatype Lexer = Lexer(words: seq<string>, mode: Mode)

  function Step(l: Lexer, c: char): Lexer {
    match l.mode
    case Between =>
      if c == ' ' then l
      else if c == '\'' then Lexer(l.words, InQuote(""))
      else Lexer(l.words, InWord([c]))
    case InWord(acc) =>
      if c == ' ' then Lexer(l.words + [acc], Between)
      else if c == '\'' then Lexer(l.words, InQuote(acc))
      else Lexer(l.words, InWord(acc + [c]))
    case InQuote(acc) =>
      if c == '\'' then Lexer(l.words, InWord(acc))
      else Lexer(l.words, InQuote(acc + [c]))
  }

  function Run(l: Lexer, s: string): Lexer
    decreases |s|
  {
    if |s| == 0 then l else Run(Step(l, s[0]), s[1..])
  }

  /** End of input: an open quote is a syntax error. */
  function Finish(l: Lexer): Option<seq<string>> {
    match l.mode
    case Between => Some(l.words)
    case InWord(acc) => Some(l.words + [acc])
    case InQuote(_) => None
  }

  /** The words of a command line, or `None` on an unterminated quote. */
  function Words(s: string): Option<seq<string>> {
    Finish(Run(Lexer([], Between), s))
  }

  predicate NoQuote(s: string) {
    forall i :: 0 <= i < |s| ==> s[i] != '\''
  }

  lemma {:induction false} RunAppend(l: Lexer, a: string, b: string)
    ensures Run(l, a + b) == Run(Run(l, a), b)
    decreases |a|
  {
    if |a| > 0 {
      assert (a + b)[1..] == a[1..] + b;
      RunAppend(Step(l, a[0]), a[1..], b);
    } else {
      assert a + b == b;
    }
  }

  /** Inside quotes, quote-free text is taken verbatim. */
  lemma {:induction false} RunQuoted(w: seq<string>, acc: string, x: string)
    requires NoQuote(x)
    ensures Run(Lexer(w, InQuote(acc)), x) == Lexer(w, InQuote(acc + x))
    decreases |x|
  {
    if |x| > 0 {
      assert acc + [x[0]] + x[1..] == acc + x;
      RunQuoted(w, acc + [x[0]], x[1..]);
    } else {
      assert acc + x == acc;
    }
  }

  /** A single-quoted quote-free string read between words opens a word
      holding exactly that string. */
  lemma QuotedWord(w: seq<string>, x: string)
    requires NoQuote(x)
    ensures Run(Lexer(w, Between), "'" + x + "'") == Lexer(w, InWord(x))
  {
    var q := "'";
    RunAppend(Lexer(w, Between), q, x + q);
    assert q + (x + q) == q + x + q;
    assert Run(Lexer(w, Between), q) == Lexer(w, InQuote(""));
    RunAppend(Lexer(w, InQuote("")), x, q);
    RunQuoted(w, "", x);
    assert "" + x == x;
  }

  /** Unquoted text the word splitting above reads as part of one word: no
      blank and no single quote. */
  predicate Bare(s: string) {
    forall i :: 0 <= i < |s| ==> s[i] != '\'' && s[i] != ' '
  }

  /** A character `/bin/sh` gives no meaning to outside quotes: a letter,
      a digit, or one of `-_./+,:@%`. Blanks, newlines, operators, quotes,
      backslashes, `$` and backquotes, glob and comment characters, `~`,
      `=`, braces and `!` are all left out. */
  predicate Inert(c: char) {
    || ('a' <= c <= 'z') || ('A' <= c <= 'Z') || ('0' <= c <= '9')
    || c == '-' || c == '_' || c == '.' || c == '/' || c == '+' || c == ',' || c == ':' || c == '@' || c == '%'
  }

  /** A word the shell takes literally when it stands unquoted. Such a word
      is also bare. */
  predicate Plain(s: string) {
    forall i :: 0 <= i < |s| ==> Inert(s[i])
  }

  lemma PlainIsBare(s: string)
    requires Plain(s)
    ensures Bare(s)
  {
  }

  /** Inside a word, unquoted text without blanks extends the word. */
  lemma {:induction false} RunBare(w: seq<string>, acc: string, x: string)
    requires Bare(x)
    ensures Run(Lexer(w, InWord(acc)), x) == Lexer(w, InWord(acc + x))
    decreases |x|
  {
    if |x| > 0 {
      assert acc + [x[0]] + x[1..] == acc + x;
      RunBare(w, acc + [x[0]], x[1..]);
    } else {
      assert acc + x == acc;
    }
  }

  /** An unquoted word followed by a blank is emitted as one word. */
  lemma BareWordBlank(w: seq<string>, x: string, rest: string)
    requires |x| > 0 && Bare(x)
    ensures Run(Lexer(w, Between), x + " " + rest) == Run(Lexer(w + [x], Between), rest)
  {
    var s := x + " " + rest;
    assert s == [x[0]] + (x[1..] + (" " + rest));
    RunAppend(Lexer(w, Between), [x[0]], x[1..] + (" " + rest));
    assert Run(Lexer(w, Between), [x[0]]) == Lexer(w, InWord([x[0]]));
    RunAppend(Lexer(w, InWord([x[0]])), x[1..], " " + rest);
    RunBare(w, [x[0]], x[1..]);
    assert [x[0]] + x[1..] == x;
    assert (" " + rest)[0] == ' ' && (" " + rest)[1..] == rest;
  }

  /** A quoted word followed by a blank is emitted as one word. */
  lemma QuotedWordBlank(w: seq<string>, x: string, rest: string)
    requires NoQuote(x)
    ensures Run(Lexer(w, Between), "'" + x + "' " + rest) == Run(Lexer(w + [x], Between), rest)
  {
    var q := "'" + x + "'";
    assert "'" + x + "' " + rest == q + (" " + rest);
    RunAppend(Lexer(w, Between), q, " " + rest);
    QuotedWord(w, x);
    assert (" " + rest)[0] == ' ' && (" " + rest)[1..] == rest;
  }

  /** An unquoted word without blanks read between words opens a word
      holding exactly that text. */
  lemma BareWord(w: seq<string>, x: string)
    requires |x| > 0 && Bare(x)
    ensures Run(Lexer(w, Between), x) == Lexer(w, InWord(x))
  {
    assert x == [x[0]] + x[1..];
    RunAppend(Lexer(w, Between), [x[0]], x[1..]);
    assert Run(Lexer(w, Between), [x[0]]) == Lexer(w, InWord([x[0]]));
    RunBare(w, [x[0]], x[1..]);
  }

  /** Bare words joined by single blanks are read back as those words. */
  lemma {:induction false} BareWords(w: seq<string>, words: seq<string>)
    requires |words| > 0
    requires forall i :: 0 <= i < |words| ==> |words[i]| > 0 && Bare(words[i])
    ensures Run(Lexer(w, Between), JoinWith(words, " "))
      == Lexer(w + words[..|words| - 1], InWord(words[|words| - 1]))
    decreases |words|
  {
    if |words| == 1 {
      BareWord(w, words[0]);
      assert w + words[..0] == w;
    } else {
      var x, rest := words[0], words[1..];
      BareWordBlank(w, x, JoinWith(rest, " "));
      BareWords(w + [x], rest);
      assert w + [x] + rest[..|rest| - 1] == w + words[..|words| - 1];
    }
  }
}
