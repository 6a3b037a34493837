/**
 * The command line handed to a login shell. It is one text; the shell takes it apart again by its token
 * rules. The theorem says that it finds the command and the arguments, no more and no less.
 */
module ShellQuoting {
  import opened Text

  function EscapeChar(c: char): string {
    if c == '\'' then "'\\''" else [c]
  }

  function EscapeBody(s: string): string {
    if s == "" then "" else EscapeChar(s[0]) + EscapeBody(s[1..])
  }

  function Quoted(s: string): string {
    "'" + EscapeBody(s) + "'"
  }

  /** `escape`, the quoting of one word. */
  method Escape(s: string) returns (escaped: string)
    ensures escaped == Quoted(s)
  {
    escaped := "'";
    assert s[0..] == s;
    for i := 0 to |s|
      invariant escaped + EscapeBody(s[i..]) == "'" + EscapeBody(s)
    {
      EscapeStep(escaped, s, i);
      if s[i] == '\'' {
        escaped := escaped + "'\\''";
      } else {
        escaped := escaped + [s[i]];
      }
    }
    assert s[|s|..] == "" && escaped + "" == escaped;
    escaped := escaped + "'";
  }

  lemma EscapeStep(before: string, s: string, i: nat)
    requires i < |s|
    ensures before + EscapeBody(s[i..]) == (before + EscapeChar(s[i])) + EscapeBody(s[i + 1..])
  {
  }

  function QuoteAll(words: seq<string>): seq<string> {
    if words == [] then [] else [Quoted(words[0])] + QuoteAll(words[1..])
  }

  /** The text after `-c`. */
  function CommandLine(words: seq<string>): string {
    Join(QuoteAll(words), " ")
  }

  /** The loop of the login branch of `do_exec`. */
  method FullCommand(command: string, args: seq<string>) returns (fullCmd: string)
    ensures fullCmd == CommandLine([command] + args)
  {
    fullCmd := Escape(command);
    ghost var words := [command] + args;
    assert QuoteAll(words[..1]) == [Quoted(command)];
    for i := 0 to |args|
      invariant fullCmd == CommandLine(words[..i + 1])
    {
      var quoted := Escape(args[i]);
      CommandLineSnoc(words[..i + 1], args[i]);
      assert words[..i + 2] == words[..i + 1] + [args[i]];
      fullCmd := fullCmd + " " + quoted;
    }
    assert words[..|args| + 1] == words;
  }

  lemma {:induction false} QuoteAllSnoc(words: seq<string>, last: string)
    ensures QuoteAll(words + [last]) == QuoteAll(words) + [Quoted(last)]
  {
    if words == [] {
      assert words + [last] == [last] && [last][1..] == [];
    } else {
      assert (words + [last])[1..] == words[1..] + [last];
      QuoteAllSnoc(words[1..], last);
    }
  }

  lemma CommandLineSnoc(words: seq<string>, last: string)
    requires words != []
    ensures CommandLine(words + [last]) == CommandLine(words) + " " + Quoted(last)
  {
    QuoteAllSnoc(words, last);
    JoinSnoc(QuoteAll(words), Quoted(last), " ");
  }

  /** The command line of several words starts with the first one, quoted. */
  lemma CommandLineHead(words: seq<string>)
    requires words != []
    ensures CommandLine(words) == if |words| == 1 then Quoted(words[0])
                                  else Quoted(words[0]) + (" " + CommandLine(words[1..]))
  {
    assert QuoteAll(words) == [Quoted(words[0])] + QuoteAll(words[1..]);
    if |words| == 1 {
      assert QuoteAll(words[1..]) == [];
    } else {
      JoinHead(Quoted(words[0]), QuoteAll(words[1..]), " ");
    }
  }

  // ---- The shell's token rules ---------------------------------------------------------------

  /** Where the tokenizer is: between words, in a word, inside single quotes, or after a backslash. */
  datatype State = Between | InWord | InQuotes | Escaping(inWord: bool)

  predicate Blank(c: char) {
    c == ' ' || c == '\t'
  }

  /** Characters with a meaning of their own outside quotes (section 2.2 of POSIX.1-2017 XCU). */
  predicate Special(c: char) {
    c in {'|', '&', ';', '<', '>', '(', ')', '$', '`', '"', '\n', '*', '?', '[', '#', '~', '=', '%', '{', '}', '!'}
  }

  /**
   * Sections 2.2.1, 2.2.2 and 2.3 of POSIX.1-2017 XCU: a backslash quotes the next character, single
   * quotes quote everything up to the next one, blanks separate words. None when a quote is left open or
   * a character outside quotes would be an operator, an expansion, a comment or a pattern.
   */
  function Tokens(text: string, state: State, word: string): Option<seq<string>>
    decreases |text|, 0
  {
    if text == "" then
      match state
      case Between => Some([])
      case InWord => Some([word])
      case _ => None
    else
      var c, rest := text[0], text[1..];
      match state
      case InQuotes =>
        if c == '\'' then Tokens(rest, InWord, word) else Tokens(rest, InQuotes, word + [c])
      case Escaping(inWord) =>
        if c == '\n' then Tokens(rest, if inWord then InWord else Between, word)
        else Tokens(rest, InWord, word + [c])
      case Between =>
        if Blank(c) then Tokens(rest, Between, "") else Unquoted(c, rest, false, word)
      case InWord =>
        if Blank(c) then AddWord(word, Tokens(rest, Between, "")) else Unquoted(c, rest, true, word)
  }

  /** A character outside quotes that does not end a word. */
  function Unquoted(c: char, rest: string, inWord: bool, word: string): Option<seq<string>>
    decreases |rest|, 1
  {
    if c == '\'' then Tokens(rest, InQuotes, word)
    else if c == '\\' then Tokens(rest, Escaping(inWord), word)
    else if Special(c) then None
    else Tokens(rest, InWord, word + [c])
  }

  function AddWord(word: string, others: Option<seq<string>>): Option<seq<string>> {
    if others.None? then None else Some([word] + others.value)
  }

  function Tokenize(text: string): Option<seq<string>> {
    Tokens(text, Between, "")
  }

  /** Inside quotes, an escaped character adds exactly that character and stays inside. */
  lemma EscapedChar(c: char, rest: string, word: string)
    ensures Tokens(EscapeChar(c) + rest, InQuotes, word) == Tokens(rest, InQuotes, word + [c])
  {
    var text := EscapeChar(c) + rest;
    if c == '\'' {
      assert text[1..] == "\\''" + rest;
      assert text[1..][1..] == "''" + rest;
      assert text[1..][1..][1..] == "'" + rest;
      assert text[1..][1..][1..][1..] == rest;
      assert Tokens(text, InQuotes, word) == Tokens("\\''" + rest, InWord, word);
      assert Tokens("\\''" + rest, InWord, word) == Tokens("''" + rest, Escaping(true), word);
      assert Tokens("''" + rest, Escaping(true), word) == Tokens("'" + rest, InWord, word + [c]);
      assert Tokens("'" + rest, InWord, word + [c]) == Tokens(rest, InQuotes, word + [c]);
    } else {
      assert text[1..] == rest;
    }
  }

  lemma {:induction false} EscapedBody(s: string, rest: string, word: string)
    ensures Tokens(EscapeBody(s) + ("'" + rest), InQuotes, word) == Tokens(rest, InWord, word + s)
  {
    if s == "" {
      assert EscapeBody(s) + ("'" + rest) == "'" + rest && ("'" + rest)[1..] == rest;
      assert word + s == word;
    } else {
      var tail := EscapeBody(s[1..]) + ("'" + rest);
      assert EscapeBody(s) + ("'" + rest) == EscapeChar(s[0]) + tail;
      EscapedChar(s[0], tail, word);
      EscapedBody(s[1..], rest, word + [s[0]]);
      assert (word + [s[0]]) + s[1..] == word + s;
    }
  }

  /** A quoted text, read between words, is one word. */
  lemma QuotedWord(s: string, rest: string)
    ensures Tokens(Quoted(s) + rest, Between, "") == Tokens(rest, InWord, s)
  {
    assert Quoted(s) + rest == "'" + (EscapeBody(s) + ("'" + rest));
    assert ("'" + (EscapeBody(s) + ("'" + rest)))[1..] == EscapeBody(s) + ("'" + rest);
    EscapedBody(s, rest, "");
    assert "" + s == s;
  }

  /** The shell finds the very words: also empty ones and ones made of quotes. */
  lemma {:induction false} QuotingRoundTrip(words: seq<string>)
    ensures Tokenize(CommandLine(words)) == Some(words)
  {
    if words != [] {
      CommandLineHead(words);
      assert words == [words[0]] + words[1..];
      if |words| == 1 {
        QuotedWord(words[0], "");
        assert Quoted(words[0]) + "" == Quoted(words[0]);
        assert words[1..] == [] && words == [words[0]];
        assert Tokens("", InWord, words[0]) == Some([words[0]]);
      } else {
        var rest := CommandLine(words[1..]);
        QuotedWord(words[0], " " + rest);
        QuotingRoundTrip(words[1..]);
        assert (" " + rest)[1..] == rest;
      }
    }
  }

  // ---- The text as a C string ----------------------------------------------------------------

  predicate NulFree(words: seq<string>) {
    forall w | w in words :: NUL !in w
  }

  lemma {:induction false} EscapeBodyNul(s: string)
    ensures NUL in EscapeBody(s) <==> NUL in s
  {
    if s != "" {
      EscapeBodyNul(s[1..]);
      assert s == [s[0]] + s[1..];
      assert NUL !in "'\\''";
    }
  }

  lemma {:induction false} CommandLineNul(words: seq<string>)
    ensures NUL in CommandLine(words) <==> !NulFree(words)
  {
    if words != [] {
      EscapeBodyNul(words[0]);
      assert words == [words[0]] + words[1..];
      assert NUL in Quoted(words[0]) <==> NUL in words[0];
      CommandLineNul(words[1..]);
      CommandLineHead(words);
    }
  }

  /** A command line cut inside a word leaves a quote open. */
  lemma {:induction false} CutBody(s: string, cut: string, word: string)
    requires NUL !in cut && cut <= EscapeBody(s) && EscapeBody(s)[|cut|..] != "" && EscapeBody(s)[|cut|] == NUL
    ensures Tokens(cut, InQuotes, word).None?
  {
    var head := EscapeChar(s[0]);
    if |cut| < |head| {
      assert head[|cut|] == NUL;
      assert cut == "";
    } else {
      var tail := cut[|head|..];
      assert cut == head + tail;
      assert EscapeBody(s)[|head|..] == EscapeBody(s[1..]);
      assert EscapeBody(s[1..])[|tail|] == EscapeBody(s)[|cut|];
      CutBody(s[1..], tail, word + [s[0]]);
      EscapedChar(s[0], tail, word);
    }
  }

  lemma {:induction false} CutLine(words: seq<string>)
    requires !NulFree(words)
    ensures Tokenize(CStr(CommandLine(words))).None?
  {
    CommandLineHead(words);
    if NUL in words[0] {
      CutInFirst(words[0], if |words| == 1 then "" else " " + CommandLine(words[1..]));
      assert Quoted(words[0]) + "" == Quoted(words[0]);
    } else {
      assert words == [words[0]] + words[1..];
      CutLater(words[0], CommandLine(words[1..]));
      CutLine(words[1..]);
    }
  }

  lemma CutInFirst(word: string, rest: string)
    requires NUL in word
    ensures Tokenize(CStr(Quoted(word) + rest)).None?
  {
    EscapeBodyNul(word);
    var body := EscapeBody(word);
    var line := Quoted(word) + rest;
    assert line[1..] == body + ("'" + rest);
    CutPrefix(body, "'" + rest);
    assert CStr(line) == ['\''] + CStr(body);
    CutBody(word, CStr(body), "");
    assert CStr(line)[0] == '\'' && CStr(line)[1..] == CStr(body);
    assert Tokenize(CStr(line)) == Unquoted('\'', CStr(body), false, "");
  }

  lemma CutLater(word: string, rest: string)
    requires NUL !in word
    ensures Tokenize(CStr(Quoted(word) + (" " + rest))) == AddWord(word, Tokenize(CStr(rest)))
  {
    EscapeBodyNul(word);
    CutSkips(Quoted(word), " " + rest);
    CutSkips(" ", rest);
    QuotedWord(word, " " + CStr(rest));
    assert (" " + CStr(rest))[1..] == CStr(rest);
  }

  lemma {:induction false} CutSkips(a: string, b: string)
    requires NUL !in a
    ensures CStr(a + b) == a + CStr(b)
  {
    if a == "" {
      assert a + b == b;
    } else {
      assert (a + b)[1..] == a[1..] + b;
      CutSkips(a[1..], b);
    }
  }

  lemma {:induction false} CutPrefix(a: string, b: string)
    requires NUL in a
    ensures CStr(a + b) == CStr(a)
  {
    if a[0] != NUL {
      assert (a + b)[1..] == a[1..] + b;
      CutPrefix(a[1..], b);
    }
  }

  /**
   * What the shell receives is a C string. It takes it apart into the command and the arguments exactly
   * when none of them holds a NUL; otherwise it finds an open quote and runs nothing.
   */
  lemma LoginCommandRoundTrip(command: string, args: seq<string>)
    ensures Tokenize(CStr(CommandLine([command] + args))) ==
            if NulFree([command] + args) then Some([command] + args) else None
  {
    var words := [command] + args;
    CommandLineNul(words);
    if NulFree(words) {
      QuotingRoundTrip(words);
    } else {
      CutLine(words);
    }
  }
}
