/**
 * Argument patterns. A rule argument is a glob; the program checks it by translating the glob to
 * the text of an ECMAScript regular expression and asking for a full match. This module has both
 * sides: what a glob means, what the regular expression means, the translation loop, and the proof
 * that they agree.
 */
module Glob {
  import opened Text

  /** Characters that `.` does not match (section 15.10.2.8 of ECMA-262, 3rd edition). */
  predicate LineTerminator(c: char) {
    c == '\n' || c == '\r' || c == '\U{2028}' || c == '\U{2029}'
  }

  predicate HasGlob(s: string) {
    '*' in s || '?' in s
  }

  /** The first `k` characters of `t` can be swallowed by a `*`. */
  predicate Swallows(t: string, k: nat)
    requires k <= |t|
  {
    forall i | 0 <= i < k :: !LineTerminator(t[i])
  }

  /**
   * What a glob means: `*` stands for any run of characters of one line, `?` for one character that
   * is not a line terminator, and every other character for itself.
   */
  predicate Matches(pattern: string, text: string)
    decreases |pattern|
  {
    if pattern == "" then text == ""
    else if pattern[0] == '*' then
      exists k: nat | k <= |text| :: Swallows(text, k) && Matches(pattern[1..], text[k..])
    else
      && text != ""
      && (if pattern[0] == '?' then !LineTerminator(text[0]) else text[0] == pattern[0])
      && Matches(pattern[1..], text[1..])
  }

  /** A pattern without metacharacters matches itself and nothing else. */
  lemma {:induction false} LiteralLanguage(pattern: string, text: string)
    requires !HasGlob(pattern)
    ensures Matches(pattern, text) <==> text == pattern
  {
    if pattern != "" {
      assert pattern[0] in pattern;
      assert forall c | c in pattern[1..] :: c in pattern;
      if text != "" {
        LiteralLanguage(pattern[1..], text[1..]);
        assert pattern == [pattern[0]] + pattern[1..];
        assert text == [text[0]] + text[1..];
      }
    }
  }

  /** A text the pattern matches: no run for `*`, the letter x for `?`. */
  function Instance(pattern: string): string {
    if pattern == "" then ""
    else if pattern[0] == '*' then Instance(pattern[1..])
    else [if pattern[0] == '?' then 'x' else pattern[0]] + Instance(pattern[1..])
  }

  /** No pattern is empty as a language. */
  lemma {:induction false} InstanceMatches(pattern: string)
    ensures Matches(pattern, Instance(pattern))
  {
    if pattern != "" {
      InstanceMatches(pattern[1..]);
      if pattern[0] == '*' {
        var text := Instance(pattern);
        assert text[0..] == text;
        assert Swallows(text, 0) && Matches(pattern[1..], text[0..]);
      } else {
        assert Instance(pattern)[1..] == Instance(pattern[1..]);
      }
    }
  }

  /**
   * A pattern with a metacharacter matches a second text besides any given one, so no finite list of
   * literals describes it.
   */
  function Another(pattern: string, c: char): string {
    if pattern == "" then ""
    else if pattern[0] == '*' || pattern[0] == '?' then [c] + Instance(pattern[1..])
    else [pattern[0]] + Another(pattern[1..], c)
  }

  lemma {:induction false} AnotherMatches(pattern: string, c: char)
    requires HasGlob(pattern) && !LineTerminator(c)
    ensures Matches(pattern, Another(pattern, c))
  {
    var text := Another(pattern, c);
    assert pattern == [pattern[0]] + pattern[1..];
    if pattern[0] == '*' {
      InstanceMatches(pattern[1..]);
      assert text[1..] == Instance(pattern[1..]);
      assert Swallows(text, 1) && Matches(pattern[1..], text[1..]);
    } else if pattern[0] == '?' {
      InstanceMatches(pattern[1..]);
      assert text[1..] == Instance(pattern[1..]);
    } else {
      AnotherMatches(pattern[1..], c);
      assert text[1..] == Another(pattern[1..], c);
    }
  }

  lemma {:induction false} AnotherDiffers(pattern: string, c: char, d: char)
    requires HasGlob(pattern) && c != d
    ensures Another(pattern, c) != Another(pattern, d)
  {
    assert pattern == [pattern[0]] + pattern[1..];
    if pattern[0] == '*' || pattern[0] == '?' {
      assert Another(pattern, c)[0] == c && Another(pattern, d)[0] == d;
    } else {
      AnotherDiffers(pattern[1..], c, d);
      assert Another(pattern, c)[1..] == Another(pattern[1..], c);
      assert Another(pattern, d)[1..] == Another(pattern[1..], d);
    }
  }

  /** The character that was put in is there, and the other metacharacter is not. */
  lemma {:induction false} AnotherHas(pattern: string, c: char)
    requires HasGlob(pattern)
    ensures c in Another(pattern, c)
    ensures c == '*' ==> '?' !in Another(pattern, c)
    ensures c == '?' ==> '*' !in Another(pattern, c)
  {
    assert pattern == [pattern[0]] + pattern[1..];
    if pattern[0] == '*' || pattern[0] == '?' {
      InstanceIsPlain(pattern[1..]);
    } else {
      AnotherHas(pattern[1..], c);
    }
  }

  lemma {:induction false} InstanceIsPlain(pattern: string)
    ensures !HasGlob(Instance(pattern))
  {
    if pattern != "" {
      InstanceIsPlain(pattern[1..]);
    }
  }

  /** Two different texts of one pattern; at least one of them is not `text`. */
  lemma PatternEscapesLiteral(pattern: string, text: string) returns (other: string)
    requires HasGlob(pattern)
    ensures Matches(pattern, other) && other != text
  {
    AnotherMatches(pattern, 'x');
    AnotherMatches(pattern, 'y');
    AnotherDiffers(pattern, 'x', 'y');
    other := if Another(pattern, 'x') != text then Another(pattern, 'x') else Another(pattern, 'y');
  }

  // ---- Regular expressions -------------------------------------------------------------------

  datatype Atom = AnyChar | Literal(c: char)

  datatype Quantifier = Once | ZeroOrMore | OneOrMore | AtMostOne

  datatype Term = AtStart | AtEnd | Repeat(atom: Atom, quantifier: Quantifier)

  /** A disjunction is a list of alternatives, each a list of terms. */
  type Disjunction = seq<seq<Term>>

  predicate SyntaxCharacter(c: char) {
    c in {'^', '$', '\\', '.', '*', '+', '?', '(', ')', '[', ']', '{', '}', '|'}
  }

  predicate QuantifierMark(c: char) {
    c == '*' || c == '+' || c == '?'
  }

  /** A quantifier and the text after it; a trailing `?` makes it lazy, which does not change the language. */
  function ParseQuantifier(s: string): (r: (Quantifier, string))
    ensures |r.1| <= |s|
  {
    if s == "" || !QuantifierMark(s[0]) then (Once, s)
    else
      var q := if s[0] == '*' then ZeroOrMore else if s[0] == '+' then OneOrMore else AtMostOne;
      (q, if |s| > 1 && s[1] == '?' then s[2..] else s[1..])
  }

  function Prepend(t: Term, d: Option<Disjunction>): Option<Disjunction> {
    if d.Some? && d.value != [] then Some([[t] + d.value[0]] + d.value[1..]) else None
  }

  lemma PrependToOne(t: Term, terms: seq<Term>)
    ensures Prepend(t, Some([terms])) == Some([[t] + terms])
  {
    assert [[t] + terms] + [terms][1..] == [[t] + terms];
  }

  /**
   * The Pattern grammar of section 15.10.1 of ECMA-262, 3rd edition, without groups, classes,
   * counted quantifiers and named escapes: those texts, and texts that are not patterns at all, parse
   * to None. A backslash makes any syntax character literal.
   */
  function Parse(s: string): (r: Option<Disjunction>)
    ensures r.Some? ==> r.value != []
    decreases |s|
  {
    if s == "" then Some([[]])
    else if s[0] == '|' then
      var rest := Parse(s[1..]);
      if rest.Some? then Some([[]] + rest.value) else None
    else if s[0] == '^' then Prepend(AtStart, Parse(s[1..]))
    else if s[0] == '$' then Prepend(AtEnd, Parse(s[1..]))
    else if s[0] == '\\' then
      if |s| > 1 && SyntaxCharacter(s[1]) then
        var (q, rest) := ParseQuantifier(s[2..]);
        Prepend(Repeat(Literal(s[1]), q), Parse(rest))
      else None
    else if s[0] == '.' || !SyntaxCharacter(s[0]) then
      var (q, rest) := ParseQuantifier(s[1..]);
      Prepend(Repeat(if s[0] == '.' then AnyChar else Literal(s[0]), q), Parse(rest))
    else None
  }

  predicate Accepts(a: Atom, c: char) {
    match a
    case AnyChar => !LineTerminator(c)
    case Literal(d) => c == d
  }

  /** Some way of matching `terms` from position `i` on uses up the whole text. */
  predicate MatchesFrom(terms: seq<Term>, text: string, i: nat)
    requires i <= |text|
    decreases |terms|, |text| - i
  {
    if terms == [] then i == |text|
    else
      match terms[0]
      case AtStart => i == 0 && MatchesFrom(terms[1..], text, i)
      case AtEnd => i == |text| && MatchesFrom(terms[1..], text, i)
      case Repeat(a, q) =>
        var one := i < |text| && Accepts(a, text[i]);
        match q
        case Once => one && MatchesFrom(terms[1..], text, i + 1)
        case AtMostOne =>
          MatchesFrom(terms[1..], text, i) || (one && MatchesFrom(terms[1..], text, i + 1))
        case ZeroOrMore =>
          MatchesFrom(terms[1..], text, i) || (one && MatchesFrom(terms, text, i + 1))
        case OneOrMore =>
          one && (MatchesFrom(terms[1..], text, i + 1) || MatchesFrom(terms, text, i + 1))
  }

  /** `std::regex_match`: some alternative matches the whole text. */
  predicate FullMatch(d: Disjunction, text: string) {
    exists i | 0 <= i < |d| :: MatchesFrom(d[i], text, 0)
  }

  // ---- The translation -----------------------------------------------------------------------

  /** The characters the translation escapes: every syntax character but the two it gives a meaning. */
  predicate Escaped(c: char) {
    c == '\\' || c in {'.', '+', '^', '$', '|', '(', ')', '[', ']', '{', '}'}
  }

  function TranslateChar(c: char): string {
    if c == '*' then ".*"
    else if c == '?' then "."
    else if Escaped(c) then "\\" + [c]
    else [c]
  }

  function TranslateBody(pattern: string): string {
    if pattern == "" then "" else TranslateChar(pattern[0]) + TranslateBody(pattern[1..])
  }

  function TermOf(c: char): Term {
    if c == '*' then Repeat(AnyChar, ZeroOrMore)
    else if c == '?' then Repeat(AnyChar, Once)
    else Repeat(Literal(c), Once)
  }

  function TermsOf(pattern: string): seq<Term> {
    if pattern == "" then [AtEnd] else [TermOf(pattern[0])] + TermsOf(pattern[1..])
  }

  /** The translated text never starts with a mark that would quantify what stands before it. */
  lemma TranslationStartsAtom(pattern: string)
    ensures var s := TranslateBody(pattern) + "$"; ParseQuantifier(s) == (Once, s)
  {
  }

  /** One translated character parses to its term, whatever atom follows. */
  lemma TranslatedCharParses(c: char, rest: string)
    requires ParseQuantifier(rest) == (Once, rest)
    ensures Parse(TranslateChar(c) + rest) == Prepend(TermOf(c), Parse(rest))
  {
  }

  /** The text parses, as one alternative with one term for each character of the glob. */
  lemma {:induction false} TranslationParses(pattern: string)
    ensures Parse(TranslateBody(pattern) + "$") == Some([TermsOf(pattern)])
  {
    if pattern == "" {
      assert TranslateBody(pattern) + "$" == "$";
      var empty := "$"[1..];
      assert empty == "";
      assert Parse(empty) == Some([[]]);
      PrependToOne(AtEnd, []);
      assert [AtEnd] + [] == [AtEnd];
    } else {
      var rest := TranslateBody(pattern[1..]) + "$";
      TranslationParses(pattern[1..]);
      TranslationStartsAtom(pattern[1..]);
      TranslatedCharParses(pattern[0], rest);
      PrependToOne(TermOf(pattern[0]), TermsOf(pattern[1..]));
      assert TranslateBody(pattern) + "$" == TranslateChar(pattern[0]) + rest;
    }
  }

  /** The terms of a glob, read from position `i`, match what the glob matches in the rest. */
  lemma {:induction false} TermsMean(pattern: string, text: string, i: nat)
    requires i <= |text|
    ensures MatchesFrom(TermsOf(pattern), text, i) <==> Matches(pattern, text[i..])
    decreases |pattern|, |text| - i
  {
    if pattern != "" {
      assert TermsOf(pattern)[1..] == TermsOf(pattern[1..]);
      if i < |text| {
        assert text[i..][1..] == text[i + 1..];
      }
      if pattern[0] == '*' {
        StarMeans(pattern, text, i);
      } else if i < |text| {
        TermsMean(pattern[1..], text, i + 1);
      }
    }
  }

  lemma {:induction false} StarMeans(pattern: string, text: string, i: nat)
    requires pattern != "" && pattern[0] == '*' && i <= |text|
    ensures MatchesFrom(TermsOf(pattern), text, i) <==> Matches(pattern, text[i..])
    decreases |pattern|, |text| - i, 0
  {
    var rest := text[i..];
    assert TermsOf(pattern)[1..] == TermsOf(pattern[1..]);
    TermsMean(pattern[1..], text, i);
    StarUnfolds(pattern, rest);
    if i < |text| {
      TermsMean(pattern, text, i + 1);
      assert rest[1..] == text[i + 1..];
    }
  }

  /** A star takes nothing, or one character of the line and goes on. */
  lemma StarUnfolds(pattern: string, text: string)
    requires pattern != "" && pattern[0] == '*'
    ensures Matches(pattern, text) <==>
            Matches(pattern[1..], text) || (text != "" && !LineTerminator(text[0]) && Matches(pattern, text[1..]))
  {
    assert text[0..] == text;
    if Matches(pattern, text) {
      var k: nat :| k <= |text| && Swallows(text, k) && Matches(pattern[1..], text[k..]);
      if k > 0 {
        StarShift(text, k);
        assert Swallows(text[1..], k - 1) && Matches(pattern[1..], text[1..][k - 1..]);
      }
    }
    if Matches(pattern[1..], text) {
      assert Swallows(text, 0) && Matches(pattern[1..], text[0..]);
    }
    if text != "" && !LineTerminator(text[0]) && Matches(pattern, text[1..]) {
      var k: nat :| k <= |text[1..]| && Swallows(text[1..], k) && Matches(pattern[1..], text[1..][k..]);
      StarShift(text, k + 1);
      assert Swallows(text, k + 1) && Matches(pattern[1..], text[k + 1..]);
    }
  }

  lemma StarShift(text: string, k: nat)
    requires 0 < k <= |text|
    ensures Swallows(text, k) <==> !LineTerminator(text[0]) && Swallows(text[1..], k - 1)
    ensures text[1..][k - 1..] == text[k..]
  {
  }

  /** The regular expression the program builds is well formed and means the glob, for every text. */
  lemma TranslationPreservesMeaning(pattern: string, text: string)
    ensures var d := Parse("^" + TranslateBody(pattern) + "$");
            d.Some? && (FullMatch(d.value, text) <==> Matches(pattern, text))
  {
    var s := "^" + TranslateBody(pattern) + "$";
    assert s[1..] == TranslateBody(pattern) + "$";
    TranslationParses(pattern);
    PrependToOne(AtStart, TermsOf(pattern));
    var terms := [AtStart] + TermsOf(pattern);
    assert Parse(s) == Some([terms]);
    assert MatchesFrom(terms, text, 0) == MatchesFrom(TermsOf(pattern), text, 0) by {
      assert terms[1..] == TermsOf(pattern);
    }
    TermsMean(pattern, text, 0);
    assert text[0..] == text;
    assert FullMatch([terms], text) == MatchesFrom([terms][0], text, 0);
  }

  lemma AppendTranslated(before: string, after: string, pattern: string)
    requires pattern != "" && after == before + TranslateChar(pattern[0])
    ensures before + TranslateBody(pattern) == after + TranslateBody(pattern[1..])
  {
  }

  /** `match_pattern`: build the text character by character, then ask for a full match. */
  method MatchPattern(pattern: string, text: string) returns (matched: bool)
    ensures matched <==> Matches(pattern, text)
  {
    var regexPattern := "^";
    for i := 0 to |pattern|
      invariant regexPattern + TranslateBody(pattern[i..]) == "^" + TranslateBody(pattern)
    {
      var c := pattern[i];
      ghost var before := regexPattern;
      if c == '*' {
        regexPattern := regexPattern + ".*";
      } else if c == '?' {
        regexPattern := regexPattern + ".";
      } else if Escaped(c) {
        regexPattern := regexPattern + "\\";
        regexPattern := regexPattern + [c];
      } else {
        regexPattern := regexPattern + [c];
      }
      AppendTranslated(before, regexPattern, pattern[i..]);
      assert pattern[i..][1..] == pattern[i + 1..];
    }
    assert regexPattern == "^" + TranslateBody(pattern) by {
      assert pattern[|pattern|..] == "";
      assert regexPattern + "" == regexPattern;
    }
    regexPattern := regexPattern + "$";
    TranslationPreservesMeaning(pattern, text);
    var compiled := Parse(regexPattern);
    matched := FullMatch(compiled.value, text);
  }
}
