/** Expansion of `%u`, the caller's name, in the commands and arguments of rules. */
module Variables {
  import opened Text
  import Glob

  const VARIABLE: string := "%u"

  predicate VariableAt(s: string, i: nat) {
    i + 2 <= |s| && s[i] == VARIABLE[0] && s[i + 1] == VARIABLE[1]
  }

  ghost predicate VariableFree(s: string) {
    forall i: nat :: !VariableAt(s, i)
  }

  /** The single left-to-right pass: inserted names are never looked at again. */
  function Expand(text: string, user: string): string {
    if text == "" then ""
    else if VariableAt(text, 0) then user + Expand(text[2..], user)
    else [text[0]] + Expand(text[1..], user)
  }

  /** The text between the variables. */
  function Pieces(text: string): (r: seq<string>)
    ensures r != []
  {
    if text == "" then [""]
    else if VariableAt(text, 0) then [""] + Pieces(text[2..])
    else
      var rest := Pieces(text[1..]);
      [[text[0]] + rest[0]] + rest[1..]
  }

  lemma {:induction false} JoinGrow(c: char, pieces: seq<string>, separator: string)
    requires pieces != []
    ensures Join([[c] + pieces[0]] + pieces[1..], separator) == [c] + Join(pieces, separator)
  {
  }

  lemma {:induction false} JoinEmptyFirst(pieces: seq<string>, separator: string)
    requires pieces != []
    ensures Join([""] + pieces, separator) == separator + Join(pieces, separator)
  {
  }

  /** Every text is variable-free pieces with `%u` between them, and expansion puts the name between them. */
  lemma {:induction false} ExpansionIsPiecewise(text: string, user: string)
    ensures Join(Pieces(text), VARIABLE) == text
    ensures Join(Pieces(text), user) == Expand(text, user)
    ensures forall p | p in Pieces(text) :: VariableFree(p)
  {
    if text != "" {
      if VariableAt(text, 0) {
        ExpansionIsPiecewise(text[2..], user);
        JoinEmptyFirst(Pieces(text[2..]), VARIABLE);
        JoinEmptyFirst(Pieces(text[2..]), user);
        assert text == text[0..2] + text[2..];
      } else {
        var rest := Pieces(text[1..]);
        ExpansionIsPiecewise(text[1..], user);
        JoinGrow(text[0], rest, VARIABLE);
        JoinGrow(text[0], rest, user);
        assert text == [text[0]] + text[1..];
        FirstPieceStaysFree(text);
      }
    }
  }

  lemma FirstPieceStaysFree(text: string)
    requires text != "" && !VariableAt(text, 0)
    requires VariableFree(Pieces(text[1..])[0])
    ensures VariableFree([text[0]] + Pieces(text[1..])[0])
  {
    var piece := Pieces(text[1..])[0];
    var grown := [text[0]] + piece;
    FirstPieceIsPrefix(text[1..]);
    forall i: nat
      ensures !VariableAt(grown, i)
    {
      if i > 0 {
        assert !VariableAt(piece, i - 1);
      }
    }
  }

  lemma FirstPieceIsPrefix(text: string)
    ensures Pieces(text)[0] <= text
  {
  }

  /** The decomposition is the only one: whatever variable-free pieces a text is made of, this is its expansion. */
  lemma {:induction false} ExpansionOfPieces(pieces: seq<string>, user: string)
    requires pieces != [] && forall p | p in pieces :: VariableFree(p)
    ensures Expand(Join(pieces, VARIABLE), user) == Join(pieces, user)
  {
    var first := pieces[0];
    assert first in pieces;
    if |pieces| == 1 {
      ExpandSkips(first, |first|, user);
      assert first[|first|..] == "";
    } else {
      var rest := Join(pieces[1..], VARIABLE);
      var text := first + VARIABLE + rest;
      assert text == Join(pieces, VARIABLE);
      forall i | 0 <= i < |first|
        ensures !VariableAt(text, i)
      {
        assert !VariableAt(first, i);
        assert i + 1 < |text| ==> text[i + 1] == if i + 1 < |first| then first[i + 1] else '%';
      }
      ExpandSkips(text, |first|, user);
      assert text[..|first|] == first;
      var tail := text[|first|..];
      assert tail == VARIABLE + rest;
      assert tail[0..2] == VARIABLE && tail[2..] == rest;
      ExpansionOfPieces(pieces[1..], user);
      assert Expand(tail, user) == user + Join(pieces[1..], user);
    }
  }

  /** A stretch in which no variable starts is copied. */
  lemma {:induction false} ExpandSkips(text: string, k: nat, user: string)
    requires k <= |text| && forall i | 0 <= i < k :: !VariableAt(text, i)
    ensures Expand(text, user) == text[..k] + Expand(text[k..], user)
  {
    if k > 0 {
      forall i | 0 <= i < k - 1
        ensures !VariableAt(text[1..], i)
      {
        assert !VariableAt(text, i + 1);
      }
      assert !VariableAt(text, 0);
      ExpandSkips(text[1..], k - 1, user);
      assert text[1..][..k - 1] == text[1..k];
      var rest := Expand(text[k..], user);
      assert text[1..][k - 1..] == text[k..];
      assert Expand(text[1..], user) == text[1..k] + rest;
      assert [text[0]] + (text[1..k] + rest) == ([text[0]] + text[1..k]) + rest;
      assert text[..k] == [text[0]] + text[1..k];
    } else {
      assert text[0..] == text;
    }
  }

  /** `std::string::find("%u", from)`. */
  function FindVariable(s: string, from: nat): (r: Option<nat>)
    ensures r.None? ==> forall i: nat | from <= i :: !VariableAt(s, i)
    ensures r.Some? ==> from <= r.value && VariableAt(s, r.value)
    ensures r.Some? ==> forall i: nat | from <= i < r.value :: !VariableAt(s, i)
    decreases |s| - from
  {
    if |s| < from + 2 then None
    else if VariableAt(s, from) then Some(from)
    else FindVariable(s, from + 1)
  }

  /** Searching from `from` on skips exactly the stretch before the hit. */
  lemma {:induction false} ExpandFrom(s: string, from: nat, k: nat, user: string)
    requires from <= k <= |s| && forall i: nat | from <= i < k :: !VariableAt(s, i)
    ensures Expand(s[from..], user) == s[from..k] + Expand(s[k..], user)
  {
    var t := s[from..];
    forall i | 0 <= i < k - from
      ensures !VariableAt(t, i)
    {
      assert !VariableAt(s, from + i);
    }
    ExpandSkips(t, k - from, user);
    assert t[k - from..] == s[k..];
    assert t[..k - from] == s[from..k];
  }

  /**
   * `resolve_variables`: replace inside the string, then continue after what was put in. The part not
   * yet scanned gets shorter each time, for every name.
   */
  method ResolveVariables(text: string, user: string) returns (resolved: string)
    ensures resolved == Expand(text, user)
  {
    resolved := text;
    var pos: nat := 0;
    assert text[0..] == text;
    while true
      invariant pos <= |resolved|
      invariant resolved[..pos] + Expand(resolved[pos..], user) == Expand(text, user)
      decreases |resolved| - pos
    {
      var found := FindVariable(resolved, pos);
      if found.None? {
        NothingLeft(resolved, pos, user);
        break;
      }
      var at := found.value;
      ReplaceStep(resolved, pos, at, user);
      resolved := resolved[..at] + user + resolved[at + 2..];
      pos := at + |user|;
    }
  }

  lemma {:induction false} NothingLeft(s: string, pos: nat, user: string)
    requires pos <= |s| && forall i: nat | pos <= i :: !VariableAt(s, i)
    ensures s[..pos] + Expand(s[pos..], user) == s
  {
    ExpandFrom(s, pos, |s|, user);
    assert s[|s|..] == "" && s[pos..|s|] + "" == s[pos..];
    assert s[..pos] + s[pos..] == s;
  }

  lemma Splice(a: string, b: string, c: string)
    ensures (a + b + c)[..|a| + |b|] == a + b && (a + b + c)[|a| + |b|..] == c
  {
  }

  lemma Regroup(a: string, b: string, c: string, d: string, cd: string, bcd: string)
    requires cd == c + d && bcd == b + cd
    ensures ((a + b) + c) + d == a + bcd
  {
  }

  /** One replacement moves the boundary between what is done and what is still to be scanned. */
  lemma {:induction false} ReplaceStep(s: string, pos: nat, at: nat, user: string)
    requires pos <= at && VariableAt(s, at) && forall i: nat | pos <= i < at :: !VariableAt(s, i)
    ensures var s' := s[..at] + user + s[at + 2..];
            s'[..at + |user|] + Expand(s'[at + |user|..], user) == s[..pos] + Expand(s[pos..], user)
  {
    var s' := s[..at] + user + s[at + 2..];
    ExpandFrom(s, pos, at, user);
    ExpandHit(s, at, user);
    Splice(s[..at], user, s[at + 2..]);
    assert s[..at] == s[..pos] + s[pos..at];
    Regroup(s[..pos], s[pos..at], user, Expand(s[at + 2..], user), Expand(s[at..], user), Expand(s[pos..], user));
  }

  lemma ExpandHit(s: string, at: nat, user: string)
    requires VariableAt(s, at)
    ensures Expand(s[at..], user) == user + Expand(s[at + 2..], user)
  {
  }

  /** Metacharacters written in the rule survive; only the caller's name can add others. */
  lemma {:induction false} ExpansionKeepsGlobs(text: string, user: string)
    ensures Glob.HasGlob(text) ==> Glob.HasGlob(Expand(text, user))
    ensures !Glob.HasGlob(text) && !Glob.HasGlob(user) ==> !Glob.HasGlob(Expand(text, user))
  {
    if text != "" {
      if VariableAt(text, 0) {
        ExpansionKeepsGlobs(text[2..], user);
        assert text == text[0..2] + text[2..];
        assert forall c | c in text :: c in text[0..2] || c in text[2..];
      } else {
        ExpansionKeepsGlobs(text[1..], user);
        assert text == [text[0]] + text[1..];
      }
    }
  }

  /** A character that is not in the text comes from the name, and with it the whole name. */
  lemma {:induction false} ExpansionBrings(text: string, user: string, c: char)
    requires c in Expand(text, user) && c !in text
    ensures c in user && forall d | d in user :: d in Expand(text, user)
  {
    if !VariableAt(text, 0) {
      assert text == [text[0]] + text[1..];
      ExpansionBrings(text[1..], user, c);
    } else if c !in user {
      assert text == text[0..2] + text[2..];
      ExpansionBrings(text[2..], user, c);
    }
  }
}
