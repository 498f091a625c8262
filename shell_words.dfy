/**
 * `shlex.split(s)` in POSIX mode (whitespace splitting, no comment
 * characters): a character-at-a-time state machine that either yields the
 * words of the command or fails with the error text of the exception it
 * raises. Its quoting approximates section 2.2 of the POSIX Shell Command
 * Language (IEEE Std 1003.1).
 */
module ShellWords {
  import opened Wrappers
  import opened PyStr

  /** The lexer's whitespace characters. */
  predicate IsShellSpace(c: char) {
    c == ' ' || c == '\t' || c == '\r' || c == '\n'
  }

  /** Characters with a meaning to the lexer besides whitespace: the two
      quotes and the escape character. */
  predicate IsSpecial(c: char) {
    c == '\'' || c == '"' || c == '\\'
  }

  /** The lexer state: between words, inside a word, inside single or double
      quotes, or just after a backslash (outside quotes or inside double quotes). */
  datatype Mode = Between | InWord | InSingle | InDouble | EscapeInWord | EscapeInDouble

  /** The lexer: its mode, the word being read, whether that word had quotes,
      and the words completed so far. */
  datatype Lexer = Lexer(mode: Mode, token: string, quoted: bool, words: seq<string>)

  const Start := Lexer(Between, "", false, [])

  /** Ending the current word at whitespace: it is kept when it is non-empty
      or was quoted (so `''` gives an empty word). */
  function EndWord(lx: Lexer): Lexer {
    Lexer(Between, "", false, lx.words + (if lx.token != [] || lx.quoted then [lx.token] else []))
  }

  /** One character read by the lexer. */
  function Step(lx: Lexer, c: char): Lexer {
    match lx.mode
    case Between =>
      if IsShellSpace(c) then lx
      else if c == '\\' then lx.(mode := EscapeInWord)
      else if c == '\'' then lx.(mode := InSingle)
      else if c == '"' then lx.(mode := InDouble)
      else lx.(mode := InWord, token := [c])
    case InWord =>
      if IsShellSpace(c) then EndWord(lx)
      else if c == '\'' then lx.(mode := InSingle)
      else if c == '"' then lx.(mode := InDouble)
      else if c == '\\' then lx.(mode := EscapeInWord)
      else lx.(token := lx.token + [c])
    case InSingle =>
      if c == '\'' then lx.(mode := InWord, quoted := true)
      else lx.(token := lx.token + [c], quoted := true)
    case InDouble =>
      if c == '"' then lx.(mode := InWord, quoted := true)
      else if c == '\\' then lx.(mode := EscapeInDouble, quoted := true)
      else lx.(token := lx.token + [c], quoted := true)
    case EscapeInWord =>
      lx.(mode := InWord, token := lx.token + [c])
    case EscapeInDouble =>
      // inside double quotes a backslash escapes only `"` and itself
      if c == '"' || c == '\\' then lx.(mode := InDouble, token := lx.token + [c])
      else lx.(mode := InDouble, token := lx.token + ['\\', c])
  }

  /** The lexer after reading all of `s`. */
  function Run(lx: Lexer, s: string): Lexer
    decreases |s|
  {
    if s == [] then lx else Step(Run(lx, s[..|s| - 1]), s[|s| - 1])
  }

  /** The end of the input: an open quote or a pending escape is an error. */
  function Finish(lx: Lexer): (r: Result<seq<string>>)
    ensures r.Failure? <==> lx.mode in {InSingle, InDouble, EscapeInWord, EscapeInDouble}
  {
    match lx.mode
    case Between => Success(lx.words)
    case InWord => Success(EndWord(lx).words)
    case InSingle => Failure("No closing quotation")
    case InDouble => Failure("No closing quotation")
    case EscapeInWord => Failure("No escaped character")
    case EscapeInDouble => Failure("No escaped character")
  }

  /** `shlex.split(s)`. */
  function Split(s: string): Result<seq<string>> {
    Finish(Run(Start, s))
  }

  /** Reading `a + b` is reading `a` and then `b`: the lexer is a left fold. */
  lemma {:induction false} RunAppend(lx: Lexer, a: string, b: string)
    ensures Run(lx, a + b) == Run(Run(lx, a), b)
    decreases |b|
  {
    if b == [] {
      assert a + b == a;
    } else {
      var b' := b[..|b| - 1];
      assert (a + b)[..|a + b| - 1] == a + b';
      assert (a + b)[|a + b| - 1] == b[|b| - 1];
      RunAppend(lx, a, b');
    }
  }

  /** The lexer is outside any quote and has no pending escape. */
  predicate Outside(lx: Lexer) {
    lx.mode == Between || lx.mode == InWord
  }

    /** The characters of `s` that are not lexer whitespace, in order. */
  function NonSpace(s: string): string {
    if s == [] then []
    else NonSpace(s[..|s| - 1]) + (if IsShellSpace(s[|s| - 1]) then [] else [s[|s| - 1]])
  }

  /** What reading text without quotes or backslashes keeps true. */
  predicate PlainState(lx: Lexer) {
    Outside(lx) && !lx.quoted &&
    (lx.mode == Between <==> lx.token == []) &&
    (forall i :: 0 <= i < |lx.token| ==> !IsShellSpace(lx.token[i])) &&
    (forall w :: w in lx.words ==> w != [] && forall i :: 0 <= i < |w| ==> !IsShellSpace(w[i]))
  }

  /** Ending a word appends it to the completed words' concatenation. */
  lemma EndWordConcat(lx: Lexer)
    ensures Concat(EndWord(lx).words) == Concat(lx.words) + lx.token
  {
    if lx.token != [] || lx.quoted {
      assert (lx.words + [lx.token])[..|lx.words|] == lx.words;
    } else {
      assert EndWord(lx).words == lx.words + [] == lx.words;
      assert Concat(lx.words) + lx.token == Concat(lx.words);
    }
  }

  /** One plain character keeps the plain-text state and adds the character
      (unless it is whitespace) to the text read so far. */
  lemma PlainStep(lx: Lexer, c: char)
    requires PlainState(lx) && !IsSpecial(c)
    ensures PlainState(Step(lx, c))
    ensures Concat(Step(lx, c).words) + Step(lx, c).token ==
      Concat(lx.words) + lx.token + (if IsShellSpace(c) then [] else [c])
  {
    if lx.mode == InWord && IsShellSpace(c) {
      EndWordConcat(lx);
    }
  }

  /** Reading plain text: the lexer stays outside quotes, and the completed
      words followed by the current one are the non-space characters read. */
  lemma {:induction false} PlainRun(s: string)
    requires forall i :: 0 <= i < |s| ==> !IsSpecial(s[i])
    ensures PlainState(Run(Start, s))
    ensures Concat(Run(Start, s).words) + Run(Start, s).token == NonSpace(s)
    decreases |s|
  {
    if s != [] {
      PlainRun(s[..|s| - 1]);
      PlainStep(Run(Start, s[..|s| - 1]), s[|s| - 1]);
    }
  }

  /** A command without quotes or backslashes always splits, into non-empty
      words without whitespace whose concatenation is the command's
      non-space characters. */
  lemma PlainSplit(s: string)
    requires forall i :: 0 <= i < |s| ==> !IsSpecial(s[i])
    ensures Split(s).Success?
    ensures forall w :: w in Split(s).value ==> w != [] && forall i :: 0 <= i < |w| ==> !IsShellSpace(w[i])
    ensures Concat(Split(s).value) == NonSpace(s)
  {
    PlainRun(s);
    EndWordConcat(Run(Start, s));
  }

  /** Inside single quotes every character but the closing quote is literal. */
  lemma {:induction false} StaysInSingle(lx: Lexer, b: string)
    requires lx.mode == InSingle && '\'' !in b
    ensures Run(lx, b).mode == InSingle
    decreases |b|
  {
    if b != [] {
      StaysInSingle(lx, b[..|b| - 1]);
    }
  }

  /** Inside double quotes, text without `"` or a backslash keeps the quote open. */
  lemma {:induction false} StaysInDouble(lx: Lexer, b: string)
    requires lx.mode == InDouble && '"' !in b && '\\' !in b
    ensures Run(lx, b).mode == InDouble
    decreases |b|
  {
    if b != [] {
      StaysInDouble(lx, b[..|b| - 1]);
    }
  }

  /** A quote opened outside quotes and never closed is an error. */
  lemma UnclosedQuote(a: string, q: char, b: string)
    requires Outside(Run(Start, a))
    requires q == '\'' || q == '"'
    requires q !in b && (q == '"' ==> '\\' !in b)
    ensures Split(a + [q] + b) == Failure("No closing quotation")
  {
    RunAppend(Start, a, [q]);
    RunAppend(Start, a + [q], b);
    assert Run(Run(Start, a), [q]) == Step(Run(Start, a), q);
    if q == '\'' {
      StaysInSingle(Run(Start, a + [q]), b);
    } else {
      StaysInDouble(Run(Start, a + [q]), b);
    }
  }

  /** A backslash at the very end, outside quotes, is an error. */
  lemma TrailingBackslash(a: string)
    requires Outside(Run(Start, a))
    ensures Split(a + ['\\']) == Failure("No escaped character")
  {
    assert (a + ['\\'])[..|a|] == a;
  }

  /** Plain text is read outside quotes, so the two errors above apply after it. */
  lemma PlainIsOutside(a: string)
    requires forall i :: 0 <= i < |a| ==> !IsSpecial(a[i])
    ensures Outside(Run(Start, a))
  {
    PlainRun(a);
  }

  /** Whitespace inside quotes belongs to the word: `'a b'` is one word. */
  lemma QuotingExample()
    ensures Split("'a b'") == Success(["a b"])
  {
    var s := "'a b'";
    assert Run(Start, s[..1]) == Lexer(InSingle, "", false, []);
    assert s[..2][..1] == s[..1];
    assert Run(Start, s[..2]) == Lexer(InSingle, "a", true, []);
    assert s[..3][..2] == s[..2];
    assert Run(Start, s[..3]) == Lexer(InSingle, "a ", true, []);
    assert s[..4][..3] == s[..3];
    assert Run(Start, s[..4]) == Lexer(InSingle, "a b", true, []);
    assert s[..4] == s[..|s| - 1];
    assert Run(Start, s) == Lexer(InWord, "a b", true, []);
    assert EndWord(Run(Start, s)).words == ["a b"];
  }
}
