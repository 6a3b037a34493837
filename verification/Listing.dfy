/**
 * The listing of permitted rules. It looks at scopes instead of requests: each permit is compared with
 * the scopes of the denies before it. The theorems say what that tells about every request.
 */
module Listing {
  import opened Text
  import opened Acl
  import Glob
  import Variables

  /** What a rule applies to, variables resolved and the command canonical. Empty means any. */
  datatype Scope = Scope(target: Option<Uid>, command: string, args: seq<string>, pattern: bool)

  datatype Coverage = Nothing | Partial | Full

  datatype Entry = Entry(rule: Rule, conditional: bool)

  /** The requests of a scope. */
  predicate Accepts(scope: Scope, req: Request) {
    && scope.target == Some(req.target)
    && (scope.command == ""
        || (&& scope.command == req.command
            && (scope.args == [] || ArgumentsMatch(scope.pattern, scope.args, req.args))))
  }

  function Normalize(site: Site, rule: Rule): Option<Scope> {
    if RuleTarget(rule).None? then None
    else Some(Scope(RuleTarget(rule),
                    if rule.cmd == "" then "" else CanonicalCommand(site, rule),
                    ExpandAll(rule.cmdargs, site.user),
                    rule.pattern))
  }

  /** `normalize_scope`. */
  method NormalizeScope(site: Site, rule: Rule) returns (scope: Option<Scope>)
    ensures scope == Normalize(site, rule)
  {
    var target := RuleTarget(rule);
    if target.None? {
      return None;
    }
    var command := "";
    if rule.cmd != "" {
      var resolved := Variables.ResolveVariables(rule.cmd, site.user);
      command := site.canonical(resolved);
    }
    var args: seq<string> := [];
    for i := 0 to |rule.cmdargs|
      invariant args == ExpandAll(rule.cmdargs, site.user)[..i]
    {
      var arg := Variables.ResolveVariables(rule.cmdargs[i], site.user);
      args := args + [arg];
    }
    assert args == ExpandAll(rule.cmdargs, site.user);
    return Some(Scope(target, command, args, rule.pattern));
  }

  /** A normalised scope has exactly the requests the rule matches for a caller it is meant for. */
  lemma {:induction false} NormalizeFaithful(site: Site, rule: Rule, id: Identity, req: Request)
    requires Sensible(site)
    ensures Normalize(site, rule).Some? ==>
              (RuleMatches(site, rule, id, req) <==>
               IdentityMatches(rule, id) && Accepts(Normalize(site, rule).value, req))
    ensures Normalize(site, rule).None? ==> !RuleMatches(site, rule, id, req)
  {
  }

  /** Whatever the caller's name, a rule that matches has a scope, and the scope has the request. */
  lemma MatchIsAccepted(site: Site, rule: Rule, id: Identity, req: Request)
    requires RuleMatches(site, rule, id, req)
    ensures Normalize(site, rule).Some? && Accepts(Normalize(site, rule).value, req)
  {
  }

  // ---- Coverage ------------------------------------------------------------------------------

  /** Two glob arguments that a literal on one side shows to have nothing in common. */
  predicate Apart(denied: string, permitted: string) {
    var denyLiteral := !Glob.HasGlob(denied);
    var permitLiteral := !Glob.HasGlob(permitted);
    if denyLiteral && permitLiteral then denied != permitted
    else if denyLiteral then !Glob.Matches(permitted, denied)
    else if permitLiteral then !Glob.Matches(denied, permitted)
    else false
  }

  predicate SomewhereApart(deny: Scope, permit: Scope)
    requires |deny.args| == |permit.args|
  {
    exists i | 0 <= i < |deny.args| :: Apart(deny.args[i], permit.args[i])
  }

  function Cover(deny: Scope, permit: Scope): Coverage {
    if deny.target.None? || permit.target.None? || deny.target != permit.target then Nothing
    else if deny.command == "" then Full
    else if permit.command == "" then Partial
    else if deny.command != permit.command then Nothing
    else if deny.args == [] then Full
    else if permit.args == [] then Partial
    else if |deny.args| != |permit.args| then Nothing
    else if !deny.pattern && !permit.pattern then if deny.args == permit.args then Full else Nothing
    else if !permit.pattern then
      if ArgumentsMatch(true, deny.args, permit.args) then Full else Nothing
    else if !deny.pattern then
      if ArgumentsMatch(true, permit.args, deny.args) then Partial else Nothing
    else if deny.args == permit.args then Full
    else if SomewhereApart(deny, permit) then Nothing
    else Partial
  }

  /** `scope_coverage`. */
  method ScopeCoverage(deny: Scope, permit: Scope) returns (coverage: Coverage)
    ensures coverage == Cover(deny, permit)
  {
    if deny.target.None? || permit.target.None? || deny.target.value != permit.target.value {
      return Nothing;
    }
    if deny.command == "" {
      return Full;
    }
    if permit.command == "" {
      return Partial;
    }
    if deny.command != permit.command {
      return Nothing;
    }
    if deny.args == [] {
      return Full;
    }
    if permit.args == [] {
      return Partial;
    }
    if |deny.args| != |permit.args| {
      return Nothing;
    }
    if !deny.pattern && !permit.pattern {
      return if deny.args == permit.args then Full else Nothing;
    }
    if deny.pattern && !permit.pattern {
      var all := AllMatch(deny.args, permit.args);
      return if all then Full else Nothing;
    }
    if !deny.pattern && permit.pattern {
      var all := AllMatch(permit.args, deny.args);
      return if all then Partial else Nothing;
    }
    if deny.args == permit.args {
      return Full;
    }
    for i := 0 to |deny.args|
      invariant forall j | 0 <= j < i :: !Apart(deny.args[j], permit.args[j])
    {
      var denyLiteral := !Glob.HasGlob(deny.args[i]);
      var permitLiteral := !Glob.HasGlob(permit.args[i]);
      if denyLiteral && permitLiteral {
        if deny.args[i] != permit.args[i] {
          return Nothing;
        }
      } else if denyLiteral {
        var matched := Glob.MatchPattern(permit.args[i], deny.args[i]);
        if !matched {
          return Nothing;
        }
      } else if permitLiteral {
        var matched := Glob.MatchPattern(deny.args[i], permit.args[i]);
        if !matched {
          return Nothing;
        }
      }
    }
    return Partial;
  }

  /** The loop over argument positions, shared by the two arms where one side is literal. */
  method AllMatch(patterns: seq<string>, texts: seq<string>) returns (all: bool)
    requires |patterns| == |texts|
    ensures all <==> ArgumentsMatch(true, patterns, texts)
  {
    for i := 0 to |patterns|
      invariant forall j | 0 <= j < i :: ArgumentMatches(true, patterns[j], texts[j])
    {
      var matched := Glob.MatchPattern(patterns[i], texts[i]);
      if !matched {
        assert !ArgumentMatches(true, patterns[i], texts[i]);
        return false;
      }
    }
    return true;
  }

  /** Two arguments that are apart have no text in common. */
  lemma ApartIsDisjoint(denied: string, permitted: string, text: string)
    requires Apart(denied, permitted)
    ensures !(Glob.Matches(denied, text) && Glob.Matches(permitted, text))
  {
    if !Glob.HasGlob(denied) {
      Glob.LiteralLanguage(denied, text);
    }
    if !Glob.HasGlob(permitted) {
      Glob.LiteralLanguage(permitted, text);
    }
  }

  /** Full coverage takes every request of the permit, no coverage takes none. */
  lemma CoverageIsSound(deny: Scope, permit: Scope, req: Request)
    requires Accepts(permit, req)
    ensures Cover(deny, permit) == Full ==> Accepts(deny, req)
    ensures Cover(deny, permit) == Nothing ==> !Accepts(deny, req)
  {
    if deny.target == permit.target && deny.command != "" && permit.command != "" && deny.command == permit.command
       && deny.args != [] && permit.args != [] && |deny.args| == |permit.args|
    {
      assert |req.args| == |permit.args|;
      if !permit.pattern {
        assert forall i | 0 <= i < |req.args| :: ArgumentMatches(false, permit.args[i], req.args[i]);
        assert req.args == permit.args;
        if !deny.pattern && ArgumentsMatch(false, deny.args, req.args) {
          assert forall i | 0 <= i < |req.args| :: ArgumentMatches(false, deny.args[i], req.args[i]);
          assert deny.args == req.args;
        }
      } else if !deny.pattern {
        if ArgumentsMatch(false, deny.args, req.args) {
          assert forall i | 0 <= i < |req.args| :: ArgumentMatches(false, deny.args[i], req.args[i]);
          assert deny.args == req.args;
        }
      } else if SomewhereApart(deny, permit) {
        var i :| 0 <= i < |deny.args| && Apart(deny.args[i], permit.args[i]);
        ApartIsDisjoint(deny.args[i], permit.args[i], req.args[i]);
        assert ArgumentMatches(true, permit.args[i], req.args[i]);
        assert !ArgumentMatches(true, deny.args[i], req.args[i]);
      }
    }
  }

  /**
   * The one arm that may answer Partial without knowing: two different pattern lists of equal length for
   * one command, which no literal argument tells apart.
   */
  predicate Undecided(deny: Scope, permit: Scope) {
    && deny.target == permit.target
    && deny.command == permit.command && permit.command != ""
    && deny.pattern && permit.pattern
    && |deny.args| == |permit.args| && deny.args != permit.args
    && !SomewhereApart(deny, permit)
  }

  /** The invariant of loaded rules: a pattern scope has a metacharacter in some argument. */
  predicate PatternShows(scope: Scope) {
    scope.pattern && scope.args != [] ==> exists i | 0 <= i < |scope.args| :: Glob.HasGlob(scope.args[i])
  }

  function Instances(scope: Scope): seq<string> {
    if scope.pattern
    then seq(|scope.args|, i requires 0 <= i < |scope.args| => Glob.Instance(scope.args[i]))
    else scope.args
  }

  lemma ScopeIsInhabited(scope: Scope)
    requires scope.target.Some?
    ensures Accepts(scope, Request(scope.command, Instances(scope), scope.target.value))
  {
    if scope.pattern {
      forall i | 0 <= i < |scope.args|
        ensures Glob.Matches(scope.args[i], Instances(scope)[i])
      {
        Glob.InstanceMatches(scope.args[i]);
      }
    }
  }

  /** A Partial answer outside that arm is right: some requests of the permit are denied and some are not. */
  lemma PartialIsExact(deny: Scope, permit: Scope) returns (covered: Request, uncovered: Request)
    requires Cover(deny, permit) == Partial && !Undecided(deny, permit) && PatternShows(permit)
    ensures Accepts(permit, covered) && Accepts(deny, covered)
    ensures Accepts(permit, uncovered) && !Accepts(deny, uncovered)
  {
    var target := permit.target.value;
    covered := Request(deny.command, Instances(deny), target);
    ScopeIsInhabited(deny);
    if permit.command == "" {
      uncovered := Request(deny.command + "x", [], target);
    } else if permit.args == [] {
      uncovered := Request(permit.command, [], target);
    } else {
      forall i | 0 <= i < |deny.args|
        ensures ArgumentMatches(true, permit.args[i], covered.args[i])
      {
        assert ArgumentMatches(true, permit.args[i], deny.args[i]);
      }
      var at :| 0 <= at < |permit.args| && Glob.HasGlob(permit.args[at]);
      var other := Glob.PatternEscapesLiteral(permit.args[at], deny.args[at]);
      var args := deny.args[at := other];
      forall i | 0 <= i < |args|
        ensures ArgumentMatches(true, permit.args[i], args[i])
      {
        assert ArgumentMatches(true, permit.args[i], deny.args[i]);
      }
      uncovered := Request(deny.command, args, target);
      assert !ArgumentMatches(false, deny.args[at], args[at]);
    }
  }

  /**
   * Outside that arm the answer is exact: full coverage means that the deny takes every request of the
   * permit, no coverage that it takes none.
   */
  lemma CoverageIsExact(deny: Scope, permit: Scope)
    requires permit.target.Some? && !Undecided(deny, permit) && PatternShows(permit)
    ensures Cover(deny, permit) == Full <==> forall req | Accepts(permit, req) :: Accepts(deny, req)
    ensures Cover(deny, permit) == Nothing <==> forall req | Accepts(permit, req) :: !Accepts(deny, req)
  {
    forall req | Accepts(permit, req)
      ensures Cover(deny, permit) == Full ==> Accepts(deny, req)
      ensures Cover(deny, permit) == Nothing ==> !Accepts(deny, req)
    {
      CoverageIsSound(deny, permit, req);
    }
    ScopeIsInhabited(permit);
    if Cover(deny, permit) == Partial {
      var covered, uncovered := PartialIsExact(deny, permit);
    }
  }

  // ---- Requests that escape all denies ---------------------------------------------------------

  predicate AllDecided(denied: seq<Scope>, permit: Scope) {
    forall k | 0 <= k < |denied| :: !Undecided(denied[k], permit)
  }

  /** A length that no command of these scopes reaches. */
  function Beyond(denied: seq<Scope>): nat {
    if denied == [] then 1 else 1 + |denied[0].command| + Beyond(denied[1..])
  }

  lemma {:induction false} BeyondIsLonger(denied: seq<Scope>, k: nat)
    requires k < |denied|
    ensures |denied[k].command| < Beyond(denied)
  {
    if k > 0 {
      BeyondIsLonger(denied[1..], k - 1);
    }
  }

  /** A text of `n` letters. */
  function Letters(n: nat): (s: string)
    ensures |s| == n
  {
    seq(n, i => 'x')
  }

  /** A text of the pattern that no literal argument at this position spells. */
  predicate Unspelled(denied: seq<Scope>, permit: Scope, at: nat, other: string) {
    && at < |permit.args| && Glob.Matches(permit.args[at], other)
    && forall k | 0 <= k < |denied| && !denied[k].pattern && at < |denied[k].args| :: denied[k].args[at] != other
  }

  /** The permit is for one command whose arguments it restricts by patterns. */
  predicate HasArguments(permit: Scope) {
    permit.pattern && permit.command != "" && permit.args != []
  }

  /**
   * A permit that no deny takes completely, and none is undecided about, has a request that escapes all of
   * them together.
   */
  lemma {:induction false} SomethingEscapes(denied: seq<Scope>, permit: Scope, at: nat, other: string)
    returns (spared: Request)
    requires permit.target.Some? && (HasArguments(permit) ==> Unspelled(denied, permit, at, other))
    requires AllDecided(denied, permit) && !SomeCover(denied, permit, Full)
    ensures Accepts(permit, spared)
    ensures forall k | 0 <= k < |denied| :: !Accepts(denied[k], spared)
  {
    ScopeIsInhabited(permit);
    var target := permit.target.value;
    if permit.command == "" {
      spared := Request(Letters(Beyond(denied)), [], target);
    } else if HasArguments(permit) {
      spared := Request(permit.command, Instances(permit)[at := other], target);
      forall i | 0 <= i < |spared.args|
        ensures ArgumentMatches(true, permit.args[i], spared.args[i])
      {
        assert ArgumentMatches(true, permit.args[i], Instances(permit)[i]);
      }
    } else {
      spared := Request(permit.command, Instances(permit), target);
    }
    forall k | 0 <= k < |denied|
      ensures !Accepts(denied[k], spared)
    {
      EscapesOne(denied, permit, k, spared);
    }
  }

  /** Each deny misses the request: by its length, by its arguments, or because the deny misses the permit. */
  lemma {:induction false} EscapesOne(denied: seq<Scope>, permit: Scope, k: nat, spared: Request)
    requires k < |denied| && Cover(denied[k], permit) != Full && !Undecided(denied[k], permit)
    requires Accepts(permit, spared)
    requires permit.command == "" ==> |spared.command| == Beyond(denied)
    requires permit.command != "" && permit.args == [] ==> spared.args == []
    requires HasArguments(permit) ==>
               exists at | 0 <= at < |permit.args| ::
                 at < |spared.args| && Unspelled(denied, permit, at, spared.args[at])
    ensures !Accepts(denied[k], spared)
  {
    CoverageIsSound(denied[k], permit, spared);
    if Cover(denied[k], permit) == Partial {
      if permit.command == "" {
        BeyondIsLonger(denied, k);
      } else if permit.args != [] {
        var at :| 0 <= at < |permit.args| && at < |spared.args| && Unspelled(denied, permit, at, spared.args[at]);
        assert !ArgumentMatches(false, denied[k].args[at], spared.args[at]);
      }
    }
  }

  /** In that arm Partial may mean anything: the first pair is disjoint, the second fully covered. */
  lemma UndecidedIsConservative()
    ensures var a := Scope(Some(0), "ls", ["a*"], true);
            var b := Scope(Some(0), "ls", ["b*"], true);
            Undecided(a, b) && Cover(a, b) == Partial && forall req :: !(Accepts(a, req) && Accepts(b, req))
    ensures var all := Scope(Some(0), "ls", ["*"], true);
            var dashed := Scope(Some(0), "ls", ["-*"], true);
            Undecided(all, dashed) && Cover(all, dashed) == Partial
            && forall req :: Accepts(dashed, req) ==> Accepts(all, req)
  {
  }

  // ---- The listing ---------------------------------------------------------------------------

  /** The scopes of the denies before position `n` that concern the caller. */
  function DeniedScopes(site: Site, rules: seq<Rule>, id: Identity, n: nat): seq<Scope>
    requires n <= |rules|
  {
    if n == 0 then []
    else
      var before := DeniedScopes(site, rules, id, n - 1);
      var rule := rules[n - 1];
      if IdentityMatches(rule, id) && rule.action.Deny? && Normalize(site, rule).Some?
      then before + [Normalize(site, rule).value] else before
  }

  predicate SomeCover(denied: seq<Scope>, scope: Scope, coverage: Coverage) {
    exists k | 0 <= k < |denied| :: Cover(denied[k], scope) == coverage
  }

  /** Rule `i` permits something to the caller and no earlier deny takes all of it. */
  predicate Listed(site: Site, rules: seq<Rule>, id: Identity, i: nat)
    requires i < |rules|
  {
    var scope := Normalize(site, rules[i]);
    && IdentityMatches(rules[i], id) && rules[i].action.Permit? && scope.Some?
    && !SomeCover(DeniedScopes(site, rules, id, i), scope.value, Full)
  }

  predicate Conditional(site: Site, rules: seq<Rule>, id: Identity, i: nat)
    requires i < |rules|
  {
    var scope := Normalize(site, rules[i]);
    scope.Some? && SomeCover(DeniedScopes(site, rules, id, i), scope.value, Partial)
  }

  /** The entries of the listed rules, in configuration order. */
  function Entries(site: Site, rules: seq<Rule>, id: Identity, n: nat): seq<Entry>
    requires n <= |rules|
  {
    if n == 0 then []
    else
      var before := Entries(site, rules, id, n - 1);
      if Listed(site, rules, id, n - 1)
      then before + [Entry(rules[n - 1], Conditional(site, rules, id, n - 1))] else before
  }

  function ListingOf(site: Site, rules: seq<Rule>, identity: Option<Identity>): seq<Entry> {
    if identity.None? then [] else Entries(site, rules, identity.value, |rules|)
  }

  /** `list_permitted_entries`. */
  method ListPermittedEntries(site: Site, rules: seq<Rule>, identity: Option<Identity>)
    returns (permitted: seq<Entry>)
    ensures permitted == ListingOf(site, rules, identity)
  {
    permitted := [];
    if identity.None? {
      return;
    }
    var id := identity.value;
    var deniedScopes: seq<Scope> := [];
    for i := 0 to |rules|
      invariant deniedScopes == DeniedScopes(site, rules, id, i)
      invariant permitted == Entries(site, rules, id, i)
    {
      var rule := rules[i];
      if !IdentityMatches(rule, id) {
        continue;
      }
      var scope := NormalizeScope(site, rule);
      if scope.None? {
        continue;
      }
      if rule.action.Deny? {
        deniedScopes := deniedScopes + [scope.value];
        continue;
      }
      var suppressed, conditional := CompareWithDenies(deniedScopes, scope.value);
      if !suppressed {
        permitted := permitted + [Entry(rule, conditional)];
      }
    }
  }

  /** The inner loop: it stops at the first deny that takes everything. */
  method CompareWithDenies(deniedScopes: seq<Scope>, scope: Scope) returns (suppressed: bool, conditional: bool)
    ensures suppressed <==> SomeCover(deniedScopes, scope, Full)
    ensures !suppressed ==> (conditional <==> SomeCover(deniedScopes, scope, Partial))
  {
    suppressed, conditional := false, false;
    for k := 0 to |deniedScopes|
      invariant !suppressed
      invariant forall l | 0 <= l < k :: Cover(deniedScopes[l], scope) != Full
      invariant conditional <==> exists l | 0 <= l < k :: Cover(deniedScopes[l], scope) == Partial
    {
      var coverage := ScopeCoverage(deniedScopes[k], scope);
      match coverage {
        case Full => suppressed := true;
        case Partial => conditional := true;
        case Nothing =>
      }
      if suppressed {
        break;
      }
    }
  }

  // ---- What the listing says about requests --------------------------------------------------

  /** Every denied scope comes from an earlier deny rule. */
  lemma {:induction false} DeniedScopeHasRule(site: Site, rules: seq<Rule>, id: Identity, n: nat, k: nat)
    returns (j: nat)
    requires n <= |rules| && k < |DeniedScopes(site, rules, id, n)|
    ensures j < n && IdentityMatches(rules[j], id) && rules[j].action.Deny?
    ensures Normalize(site, rules[j]) == Some(DeniedScopes(site, rules, id, n)[k])
  {
    var before := DeniedScopes(site, rules, id, n - 1);
    if k < |before| {
      j := DeniedScopeHasRule(site, rules, id, n - 1, k);
    } else {
      j := n - 1;
    }
  }

  /** Every earlier deny rule that could match is among the denied scopes. */
  lemma {:induction false} DenyRuleHasScope(site: Site, rules: seq<Rule>, id: Identity, n: nat, j: nat)
    returns (k: nat)
    requires j < n <= |rules|
    requires IdentityMatches(rules[j], id) && rules[j].action.Deny? && Normalize(site, rules[j]).Some?
    ensures k < |DeniedScopes(site, rules, id, n)|
    ensures DeniedScopes(site, rules, id, n)[k] == Normalize(site, rules[j]).value
  {
    if j == n - 1 {
      k := |DeniedScopes(site, rules, id, n - 1)|;
    } else {
      k := DenyRuleHasScope(site, rules, id, n - 1, j);
    }
  }

  /** The rule that decides a request in the caller's favour is never suppressed. */
  lemma {:induction false} FirstMatchIsListed(site: Site, rules: seq<Rule>, id: Identity, req: Request)
    requires Sensible(site)
    requires var first := FirstMatch(site, rules, id, req); first.Some? && rules[first.value].action.Permit?
    ensures Listed(site, rules, id, FirstMatch(site, rules, id, req).value)
  {
    var i := FirstMatch(site, rules, id, req).value;
    NormalizeFaithful(site, rules[i], id, req);
    var scope := Normalize(site, rules[i]).value;
    var denied := DeniedScopes(site, rules, id, i);
    forall k | 0 <= k < |denied|
      ensures Cover(denied[k], scope) != Full
    {
      var j := DeniedScopeHasRule(site, rules, id, i, k);
      NormalizeFaithful(site, rules[j], id, req);
      CoverageIsSound(denied[k], scope, req);
    }
  }

  /** A listed rule no deny touches is only ever overtaken by other permits. */
  lemma {:induction false} UnconditionalNeverDenied(site: Site, rules: seq<Rule>, id: Identity, i: nat, req: Request)
    requires i < |rules| && Listed(site, rules, id, i) && !Conditional(site, rules, id, i)
    requires RuleMatches(site, rules[i], id, req)
    ensures Decision(site, rules, Some(id), req).Some?
  {
    var j := FirstMatch(site, rules, id, req).value;
    if rules[j].action.Deny? {
      MatchIsAccepted(site, rules[i], id, req);
      MatchIsAccepted(site, rules[j], id, req);
      var k := DenyRuleHasScope(site, rules, id, i, j);
      CoverageIsSound(Normalize(site, rules[j]).value, Normalize(site, rules[i]).value, req);
      assert false;
    }
  }

  lemma {:induction false} EntryHasRule(site: Site, rules: seq<Rule>, id: Identity, n: nat, e: Entry)
    returns (i: nat)
    requires n <= |rules| && e in Entries(site, rules, id, n)
    ensures i < n && Listed(site, rules, id, i)
    ensures e == Entry(rules[i], Conditional(site, rules, id, i))
  {
    if e in Entries(site, rules, id, n - 1) {
      i := EntryHasRule(site, rules, id, n - 1, e);
    } else {
      i := n - 1;
    }
  }

  lemma {:induction false} ListedHasEntry(site: Site, rules: seq<Rule>, id: Identity, n: nat, i: nat)
    requires i < n <= |rules| && Listed(site, rules, id, i)
    ensures Entry(rules[i], Conditional(site, rules, id, i)) in Entries(site, rules, id, n)
  {
    if i < n - 1 {
      ListedHasEntry(site, rules, id, n - 1, i);
    }
  }

  /** Whatever rule lets this request through is in the listing. */
  ghost predicate Complete(site: Site, rules: seq<Rule>, identity: Option<Identity>,
                           command: string, args: seq<string>, target: Uid)
  {
    var granted := Decision(site, rules, identity, Canonicalised(site, command, args, target));
    granted.Some? ==> exists e :: e in ListingOf(site, rules, identity) && e.rule == granted.value
  }

  /** The listing misses nothing. */
  lemma {:induction false} ListingIsComplete(site: Site, rules: seq<Rule>, identity: Option<Identity>,
                          command: string, args: seq<string>, target: Uid)
    requires Sensible(site)
    ensures Complete(site, rules, identity, command, args, target)
  {
    var req := Canonicalised(site, command, args, target);
    if Decision(site, rules, identity, req).Some? {
      var id := identity.value;
      var i := FirstMatch(site, rules, id, req).value;
      FirstMatchIsListed(site, rules, id, req);
      ListedHasEntry(site, rules, id, |rules|, i);
    }
  }

  /** Unconditional entries are honest: every request such a rule accepts is let through. */
  lemma {:induction false} UnconditionalIsHonest(site: Site, rules: seq<Rule>, identity: Option<Identity>, e: Entry,
                              command: string, args: seq<string>, target: Uid)
    requires e in ListingOf(site, rules, identity) && !e.conditional
    requires RuleMatches(site, e.rule, identity.value, Canonicalised(site, command, args, target))
    ensures Decision(site, rules, identity, Canonicalised(site, command, args, target)).Some?
  {
    var id := identity.value;
    var i := EntryHasRule(site, rules, id, |rules|, e);
    UnconditionalNeverDenied(site, rules, id, i, Canonicalised(site, command, args, target));
  }

  /** A rule as the configuration loader leaves it: the pattern flag is set by a metacharacter in an argument. */
  predicate PatternFlagSet(rule: Rule) {
    rule.pattern <==> exists i | 0 <= i < |rule.cmdargs| :: Glob.HasGlob(rule.cmdargs[i])
  }

  lemma LoadedRuleShowsPattern(site: Site, rule: Rule)
    requires PatternFlagSet(rule) && Normalize(site, rule).Some?
    ensures PatternShows(Normalize(site, rule).value)
  {
    if rule.pattern {
      var i :| 0 <= i < |rule.cmdargs| && Glob.HasGlob(rule.cmdargs[i]);
      Variables.ExpansionKeepsGlobs(rule.cmdargs[i], site.user);
      assert Glob.HasGlob(Normalize(site, rule).value.args[i]);
    }
  }

  /**
   * A conditional entry is not marked in vain: when the mark comes from a decided comparison, some
   * request the rule accepts is matched by an earlier deny, and some other one is not matched by that deny.
   */
  lemma {:induction false} ConditionalIsDeserved(site: Site, rules: seq<Rule>, id: Identity, i: nat)
    returns (j: nat, denied: Request, spared: Request)
    requires Sensible(site) && i < |rules| && PatternFlagSet(rules[i])
    requires Listed(site, rules, id, i)
    requires var scopes, scope := DeniedScopes(site, rules, id, i), Normalize(site, rules[i]).value;
             exists k | 0 <= k < |scopes| :: Cover(scopes[k], scope) == Partial && !Undecided(scopes[k], scope)
    ensures j < i && rules[j].action.Deny?
    ensures RuleMatches(site, rules[i], id, denied) && RuleMatches(site, rules[j], id, denied)
    ensures RuleMatches(site, rules[i], id, spared) && !RuleMatches(site, rules[j], id, spared)
    ensures FirstMatch(site, rules, id, denied) != Some(i)
  {
    var scopes := DeniedScopes(site, rules, id, i);
    var scope := Normalize(site, rules[i]).value;
    var k :| 0 <= k < |scopes| && Cover(scopes[k], scope) == Partial && !Undecided(scopes[k], scope);
    LoadedRuleShowsPattern(site, rules[i]);
    denied, spared := PartialIsExact(scopes[k], scope);
    j := DeniedScopeHasRule(site, rules, id, i, k);
    NormalizeFaithful(site, rules[i], id, denied);
    NormalizeFaithful(site, rules[j], id, denied);
    NormalizeFaithful(site, rules[i], id, spared);
    NormalizeFaithful(site, rules[j], id, spared);
  }

  /** Every rule is as the loader leaves it. */
  predicate Loaded(rules: seq<Rule>) {
    forall i | 0 <= i < |rules| :: PatternFlagSet(rules[i])
  }

  /** A metacharacter that the name cannot bring into a literal argument without bringing the other one too. */
  function Spare(user: string): char {
    if '*' in user then '?' else '*'
  }

  /**
   * Literal arguments cannot spell all texts of a pattern: a loaded one has no metacharacter of its own, and
   * those of the caller's name come all or none.
   */
  lemma {:induction false} LiteralsFallShort(site: Site, rules: seq<Rule>, id: Identity, n: nat, permit: Scope, at: nat)
    returns (other: string)
    requires n <= |rules| && Loaded(rules)
    requires at < |permit.args| && Glob.HasGlob(permit.args[at])
    ensures Unspelled(DeniedScopes(site, rules, id, n), permit, at, other)
  {
    var scopes := DeniedScopes(site, rules, id, n);
    var c := Spare(site.user);
    other := Glob.Another(permit.args[at], c);
    Glob.AnotherMatches(permit.args[at], c);
    Glob.AnotherHas(permit.args[at], c);
    forall k | 0 <= k < |scopes| && !scopes[k].pattern && at < |scopes[k].args|
      ensures scopes[k].args[at] != other
    {
      var j := DeniedScopeHasRule(site, rules, id, n, k);
      var arg := rules[j].cmdargs[at];
      assert PatternFlagSet(rules[j]) && !Glob.HasGlob(arg);
      if c in Variables.Expand(arg, site.user) {
        Variables.ExpansionBrings(arg, site.user, c);
      }
    }
  }

  /**
   * A listed rule is of use: if no comparison with an earlier deny was undecided, some request it accepts is
   * matched by no earlier deny and let through.
   */
  lemma {:induction false} ListedIsUsable(site: Site, rules: seq<Rule>, id: Identity, i: nat)
    returns (spared: Request)
    requires Sensible(site) && Loaded(rules) && i < |rules| && Listed(site, rules, id, i)
    requires AllDecided(DeniedScopes(site, rules, id, i), Normalize(site, rules[i]).value)
    ensures RuleMatches(site, rules[i], id, spared)
    ensures forall j | 0 <= j < i && rules[j].action.Deny? :: !RuleMatches(site, rules[j], id, spared)
    ensures Decision(site, rules, Some(id), spared).Some?
  {
    var scopes, scope := DeniedScopes(site, rules, id, i), Normalize(site, rules[i]).value;
    var at: nat, other := 0, "";
    if HasArguments(scope) {
      assert PatternFlagSet(rules[i]);
      LoadedRuleShowsPattern(site, rules[i]);
      at :| at < |scope.args| && Glob.HasGlob(scope.args[at]);
      other := LiteralsFallShort(site, rules, id, i, scope, at);
    }
    spared := SomethingEscapes(scopes, scope, at, other);
    NormalizeFaithful(site, rules[i], id, spared);
    NoDenyMatches(site, rules, id, i, spared);
  }

  /** The rule matches the request and no deny before it does. */
  predicate Reaches(site: Site, rules: seq<Rule>, id: Identity, i: nat, req: Request)
    requires i < |rules|
  {
    && RuleMatches(site, rules[i], id, req)
    && forall j | 0 <= j < i && rules[j].action.Deny? :: !RuleMatches(site, rules[j], id, req)
  }

  /**
   * The listing is exact about loaded policies: a permit whose comparisons are all decided is listed if and
   * only if some request gets past the earlier denies to it.
   */
  lemma {:induction false} ListedExactly(site: Site, rules: seq<Rule>, id: Identity, i: nat)
    requires Sensible(site) && Loaded(rules) && i < |rules| && rules[i].action.Permit?
    requires var scope := Normalize(site, rules[i]);
             scope.Some? ==> AllDecided(DeniedScopes(site, rules, id, i), scope.value)
    ensures Listed(site, rules, id, i) <==> exists req :: Reaches(site, rules, id, i, req)
  {
    if Listed(site, rules, id, i) {
      var spared := ListedIsUsable(site, rules, id, i);
      assert Reaches(site, rules, id, i, spared);
    }
    if req :| Reaches(site, rules, id, i, req) {
      NormalizeFaithful(site, rules[i], id, req);
      var scopes, scope := DeniedScopes(site, rules, id, i), Normalize(site, rules[i]).value;
      forall k | 0 <= k < |scopes|
        ensures Cover(scopes[k], scope) != Full
      {
        var j := DeniedScopeHasRule(site, rules, id, i, k);
        NormalizeFaithful(site, rules[j], id, req);
        CoverageIsSound(scopes[k], scope, req);
      }
    }
  }

  /** The rule and some earlier deny match the request both. */
  predicate Contested(site: Site, rules: seq<Rule>, id: Identity, i: nat, req: Request)
    requires i < |rules|
  {
    && RuleMatches(site, rules[i], id, req)
    && exists j | 0 <= j < i :: rules[j].action.Deny? && RuleMatches(site, rules[j], id, req)
  }

  /**
   * The mark is exact too: a listed permit whose comparisons are all decided carries it if and only if an
   * earlier deny takes one of its requests away.
   */
  lemma {:induction false} MarkedExactly(site: Site, rules: seq<Rule>, id: Identity, i: nat)
    requires Sensible(site) && i < |rules| && PatternFlagSet(rules[i]) && Listed(site, rules, id, i)
    requires AllDecided(DeniedScopes(site, rules, id, i), Normalize(site, rules[i]).value)
    ensures Conditional(site, rules, id, i) <==> exists req :: Contested(site, rules, id, i, req)
  {
    var scopes, scope := DeniedScopes(site, rules, id, i), Normalize(site, rules[i]).value;
    if Conditional(site, rules, id, i) {
      var k :| 0 <= k < |scopes| && Cover(scopes[k], scope) == Partial;
      assert 0 <= k < |scopes| && Cover(scopes[k], scope) == Partial && !Undecided(scopes[k], scope);
      LoadedRuleShowsPattern(site, rules[i]);
      var denied, spared := PartialIsExact(scopes[k], scope);
      var j := DeniedScopeHasRule(site, rules, id, i, k);
      NormalizeFaithful(site, rules[i], id, denied);
      NormalizeFaithful(site, rules[j], id, denied);
      assert Contested(site, rules, id, i, denied);
    }
    if req :| Contested(site, rules, id, i, req) {
      var j :| 0 <= j < i && rules[j].action.Deny? && RuleMatches(site, rules[j], id, req);
      MatchIsAccepted(site, rules[i], id, req);
      MatchIsAccepted(site, rules[j], id, req);
      var k := DenyRuleHasScope(site, rules, id, i, j);
      CoverageIsSound(scopes[k], scope, req);
    }
  }

  /** The entry shows the rule at this position, which is listed. */
  predicate Shows(site: Site, rules: seq<Rule>, id: Identity, e: Entry, i: nat) {
    i < |rules| && Listed(site, rules, id, i) && e == Entry(rules[i], Conditional(site, rules, id, i))
  }

  /** The entries are those of the listed rules, each once and in the order of the configuration. */
  lemma {:induction false} EntriesInOrder(site: Site, rules: seq<Rule>, id: Identity, n: nat) returns (at: seq<nat>)
    requires n <= |rules|
    ensures |at| == |Entries(site, rules, id, n)|
    ensures forall k | 0 <= k < |at| :: at[k] < n && Shows(site, rules, id, Entries(site, rules, id, n)[k], at[k])
    ensures forall k, l | 0 <= k < l < |at| :: at[k] < at[l]
    ensures forall i: nat | i < n && Listed(site, rules, id, i) :: i in at
  {
    at := [];
    if n > 0 {
      at := EntriesInOrder(site, rules, id, n - 1);
      if Listed(site, rules, id, n - 1) {
        at := at + [n - 1];
      }
    }
  }

  /** A request outside all denied scopes is matched by no earlier deny rule. */
  lemma {:induction false} NoDenyMatches(site: Site, rules: seq<Rule>, id: Identity, n: nat, req: Request)
    requires n <= |rules|
    requires var scopes := DeniedScopes(site, rules, id, n); forall k | 0 <= k < |scopes| :: !Accepts(scopes[k], req)
    ensures forall j | 0 <= j < n && rules[j].action.Deny? :: !RuleMatches(site, rules[j], id, req)
  {
    forall j | 0 <= j < n && rules[j].action.Deny?
      ensures !RuleMatches(site, rules[j], id, req)
    {
      if RuleMatches(site, rules[j], id, req) {
        MatchIsAccepted(site, rules[j], id, req);
        var k := DenyRuleHasScope(site, rules, id, n, j);
        assert false;
      }
    }
  }

  /**
   * A permit that an earlier deny takes away completely is not listed, unless the comparison of the two is
   * undecided.
   */
  lemma {:induction false} CoveredPermitsAreOmitted(site: Site, rules: seq<Rule>, id: Identity, i: nat, j: nat)
    requires Sensible(site) && j < i < |rules| && PatternFlagSet(rules[i])
    requires IdentityMatches(rules[j], id) && rules[j].action.Deny?
    requires Normalize(site, rules[i]).Some? && Normalize(site, rules[j]).Some?
    requires !Undecided(Normalize(site, rules[j]).value, Normalize(site, rules[i]).value)
    requires forall req | RuleMatches(site, rules[i], id, req) :: RuleMatches(site, rules[j], id, req)
    ensures !Listed(site, rules, id, i)
  {
    if IdentityMatches(rules[i], id) {
      var deny, permit := Normalize(site, rules[j]).value, Normalize(site, rules[i]).value;
      LoadedRuleShowsPattern(site, rules[i]);
      forall req | Accepts(permit, req)
        ensures Accepts(deny, req)
      {
        NormalizeFaithful(site, rules[i], id, req);
        NormalizeFaithful(site, rules[j], id, req);
      }
      CoverageIsExact(deny, permit);
      var k := DenyRuleHasScope(site, rules, id, i, j);
    }
  }

  const ANY_RULE := Rule("", None, None, "", None, "", [], [], "", Permit, false, false, false, false, false)

  /**
   * With an empty caller name the command `%u` becomes the empty text, which the listing reads as any
   * command although the evaluator compares it: this deny hides a permit that still works.
   */
  lemma EmptyNameHidesPermits(site: Site)
    requires site.user == "" && ResolvesCommands(site)
    ensures var rules := [ANY_RULE.(cmd := "%u", action := Deny), ANY_RULE.(cmd := "ls")];
            !Complete(site, rules, Some(Identity(7, [])), "ls", [], 0)
  {
    var id := Identity(7, []);
    var rules := [ANY_RULE.(cmd := "%u", action := Deny), ANY_RULE.(cmd := "ls")];
    var req := Canonicalised(site, "ls", [], 0);
    assert Variables.Expand("%u", "") == "" by {
      assert "%u"[2..] == "";
    }
    assert Variables.Expand("ls", "") == "ls" by {
      assert "ls"[1..] == "s" && "s"[1..] == "";
    }
    assert site.canonical("ls") != "" && site.canonical("") == "";
    FirstMatchIs(site, rules, id, req, 1);
    var hidden := Normalize(site, rules[0]).value;
    assert DeniedScopes(site, rules, id, 1) == [hidden];
    assert Cover([hidden][0], Normalize(site, rules[1]).value) == Full;
    assert Entries(site, rules, id, 1) == [];
  }

  /** The listing is complete for every policy and request exactly when the caller has a name. */
  lemma ListingCompleteExactly(site: Site)
    requires ResolvesCommands(site)
    ensures site.user != "" <==>
            forall rules, identity, command, args, target :: Complete(site, rules, identity, command, args, target)
  {
    if site.user == "" {
      EmptyNameHidesPermits(site);
    } else {
      forall rules, identity, command, args, target
        ensures Complete(site, rules, identity, command, args, target)
      {
        ListingIsComplete(site, rules, identity, command, args, target);
      }
    }
  }
}
