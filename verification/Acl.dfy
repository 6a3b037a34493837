/** Rules, the first-match evaluator, and what one rule accepts. */
module Acl {
  import opened Text
  import Decimal
  import Glob
  import Variables

  datatype Action = Permit | Deny

  /** A rule; the option bits of the byte `options` are separate flags here. */
  datatype Rule = Rule(
    ident: string, identUid: Option<Uid>, identGid: Option<Uid>,
    target: string, targetUid: Option<Uid>,
    cmd: string, cmdargs: seq<string>,
    envlist: seq<string>, profile: string, action: Action,
    nopass: bool, keepenv: bool, persist: bool, nolog: bool, pattern: bool)

  datatype Identity = Identity(uid: Uid, groups: seq<Uid>)

  /**
   * What the rules are read against: the caller's name, and the policy path each command resolves to
   * (the command itself when it does not resolve).
   */
  datatype Site = Site(user: string, canonical: string -> string)

  /** A request as the rules see it: the command already canonical. */
  datatype Request = Request(command: string, args: seq<string>, target: Uid)

  /** No command resolves to the empty path, and the empty command does not resolve. */
  ghost predicate ResolvesCommands(site: Site) {
    forall c: string :: site.canonical(c) == "" <==> c == ""
  }

  ghost predicate Sensible(site: Site) {
    site.user != "" && ResolvesCommands(site)
  }

  /** A whole string read by `strtol` and cut to 32 bits, as user and group ids are. */
  function NumericId(text: string): Option<Uid> {
    var s := CStr(text);
    var (value, end) := Decimal.Strtol(s);
    if end != 0 && end == |s| then Some(value % 0x1_0000_0000) else None
  }

  function RuleTarget(rule: Rule): Option<Uid> {
    if rule.targetUid.Some? then rule.targetUid
    else if rule.target == "" then Some(0)
    else NumericId(rule.target)
  }

  predicate IdentityMatches(rule: Rule, id: Identity) {
    if rule.identUid.Some? then rule.identUid.value == id.uid
    else if rule.identGid.Some? then rule.identGid.value in id.groups
    else if rule.ident != "" then rule.ident[0] != '%' && NumericId(rule.ident) == Some(id.uid)
    else true
  }

  function ExpandAll(args: seq<string>, user: string): (r: seq<string>)
    ensures |r| == |args|
  {
    seq(|args|, i requires 0 <= i < |args| => Variables.Expand(args[i], user))
  }

  function CanonicalCommand(site: Site, rule: Rule): string {
    site.canonical(Variables.Expand(rule.cmd, site.user))
  }

  predicate ArgumentMatches(pattern: bool, wanted: string, given: string) {
    if pattern then Glob.Matches(wanted, given) else wanted == given
  }

  predicate ArgumentsMatch(pattern: bool, wanted: seq<string>, given: seq<string>) {
    && |wanted| == |given|
    && forall i | 0 <= i < |given| :: ArgumentMatches(pattern, wanted[i], given[i])
  }

  /** A rule without a command takes every request for its target, a rule without arguments all arguments. */
  predicate RuleMatches(site: Site, rule: Rule, id: Identity, req: Request) {
    && IdentityMatches(rule, id)
    && RuleTarget(rule) == Some(req.target)
    && (rule.cmd == ""
        || (&& CanonicalCommand(site, rule) == req.command
            && (rule.cmdargs == []
                || ArgumentsMatch(rule.pattern, ExpandAll(rule.cmdargs, site.user), req.args))))
  }

  /** `matchRule`. */
  method MatchRule(site: Site, rule: Rule, id: Identity, req: Request) returns (matched: bool)
    ensures matched <==> RuleMatches(site, rule, id, req)
  {
    if !IdentityMatches(rule, id) {
      return false;
    }
    var ruleTarget := RuleTarget(rule);
    if ruleTarget.None? || ruleTarget.value != req.target {
      return false;
    }
    if rule.cmd != "" {
      var resolvedCmd := Variables.ResolveVariables(rule.cmd, site.user);
      resolvedCmd := site.canonical(resolvedCmd);
      if resolvedCmd != req.command {
        return false;
      }
      if rule.cmdargs != [] {
        if |req.args| != |rule.cmdargs| {
          return false;
        }
        for i := 0 to |req.args|
          invariant forall j | 0 <= j < i ::
              ArgumentMatches(rule.pattern, ExpandAll(rule.cmdargs, site.user)[j], req.args[j])
        {
          var wanted := Variables.ResolveVariables(rule.cmdargs[i], site.user);
          var same: bool;
          if rule.pattern {
            same := Glob.MatchPattern(wanted, req.args[i]);
          } else {
            same := wanted == req.args[i];
          }
          if !same {
            assert !ArgumentMatches(rule.pattern, ExpandAll(rule.cmdargs, site.user)[i], req.args[i]);
            return false;
          }
        }
      }
    }
    return true;
  }

  // ---- First match ---------------------------------------------------------------------------

  /** The position of the first rule that matches. */
  function FirstMatch(site: Site, rules: seq<Rule>, id: Identity, req: Request): (r: Option<nat>)
    ensures r.Some? ==> r.value < |rules| && RuleMatches(site, rules[r.value], id, req)
    ensures forall j | 0 <= j < |rules| && (r.None? || j < r.value) :: !RuleMatches(site, rules[j], id, req)
  {
    if rules == [] then None
    else if RuleMatches(site, rules[0], id, req) then Some(0)
    else
      match FirstMatch(site, rules[1..], id, req)
      case None => None
      case Some(i) => Some(i + 1)
  }

  /** The rule that lets the request through: the first match, if it permits. */
  function Decision(site: Site, rules: seq<Rule>, identity: Option<Identity>, req: Request): Option<Rule> {
    if identity.None? then None
    else
      var first := FirstMatch(site, rules, identity.value, req);
      if first.Some? && rules[first.value].action.Permit? then Some(rules[first.value]) else None
  }

  function Canonicalised(site: Site, command: string, args: seq<string>, target: Uid): Request {
    Request(site.canonical(command), args, target)
  }

  lemma FirstMatchIs(site: Site, rules: seq<Rule>, id: Identity, req: Request, i: nat)
    requires i < |rules| && RuleMatches(site, rules[i], id, req)
    requires forall j | 0 <= j < i :: !RuleMatches(site, rules[j], id, req)
    ensures FirstMatch(site, rules, id, req) == Some(i)
  {
  }

  /** `permit`. */
  method FindPermit(site: Site, rules: seq<Rule>, identity: Option<Identity>,
                    command: string, args: seq<string>, target: Uid)
    returns (granted: Option<Rule>)
    ensures granted == Decision(site, rules, identity, Canonicalised(site, command, args, target))
  {
    if identity.None? {
      return None;
    }
    var id := identity.value;
    var req := Request(site.canonical(command), args, target);
    for i := 0 to |rules|
      invariant forall j | 0 <= j < i :: !RuleMatches(site, rules[j], id, req)
    {
      var matched := MatchRule(site, rules[i], id, req);
      if matched {
        FirstMatchIs(site, rules, id, req, i);
        if rules[i].action.Permit? {
          return Some(rules[i]);
        } else {
          return None;
        }
      }
    }
    return None;
  }

  // ---- What a match means --------------------------------------------------------------------

  /** The number within 64 bits, cut to the 32 bits of an id. */
  function CutToId(v: int): Uid {
    Decimal.Limited(v) % 0x1_0000_0000
  }

  /** The text is a number for the id from beginning to end, up to its first NUL. */
  ghost predicate NamesId(text: string, id: Uid) {
    exists v :: Decimal.Spells(CStr(text), v) && id == CutToId(v)
  }

  lemma {:induction false} NumericIdMeans(text: string, id: Uid)
    ensures NumericId(text) == Some(id) <==> NamesId(text, id)
  {
    var s := CStr(text);
    if NumericId(text) == Some(id) {
      Decimal.StrtolWhole(s, Decimal.Strtol(s).0);
      var v :| Decimal.Spells(s, v) && Decimal.Strtol(s).0 == Decimal.Limited(v);
    }
    if v :| Decimal.Spells(s, v) && id == CutToId(v) {
      Decimal.SpelledIsRead(s, v);
    }
  }

  /** The printed id is one of its names. */
  lemma {:induction false} PrintedIdNames(id: Uid)
    ensures NamesId(Decimal.Digits(id), id)
  {
    var text := Decimal.Digits(id);
    assert NUL !in text by {
      assert !Decimal.Digit(NUL);
    }
    assert CStr(text) == text;
    Decimal.PrintedSpells(id);
    assert Decimal.Spells(text, id) && CutToId(id) == id;
  }

  /** Whom the rule is for: a user id before a group id before a text, and without any of them everyone. */
  ghost predicate IsFor(rule: Rule, id: Identity) {
    && (rule.identUid.Some? ==> rule.identUid.value == id.uid)
    && (rule.identUid.None? && rule.identGid.Some? ==> rule.identGid.value in id.groups)
    && (rule.identUid.None? && rule.identGid.None? && rule.ident != "" ==> NamesId(rule.ident, id.uid))
  }

  /** The target of the request is the rule's: its id, root if it has none, or the number its text is. */
  ghost predicate Targets(rule: Rule, target: Uid) {
    && (rule.targetUid.Some? ==> rule.targetUid.value == target)
    && (rule.targetUid.None? && rule.target == "" ==> target == 0)
    && (rule.targetUid.None? && rule.target != "" ==> NamesId(rule.target, target))
  }

  /** The command and, if the rule has any, each argument is what the rule says after the name is put in. */
  ghost predicate Covers(site: Site, rule: Rule, command: string, args: seq<string>) {
    rule.cmd != "" ==>
      && site.canonical(Variables.Expand(rule.cmd, site.user)) == command
      && (rule.cmdargs != [] ==>
            && |rule.cmdargs| == |args|
            && forall i | 0 <= i < |args| ::
                 var wanted := Variables.Expand(rule.cmdargs[i], site.user);
                 if rule.pattern then Glob.Matches(wanted, args[i]) else wanted == args[i])
  }

  lemma PercentNamesNobody(text: string, id: Uid)
    requires text != "" && text[0] == '%'
    ensures !NamesId(text, id)
  {
    var s := CStr(text);
    forall v
      ensures !Decimal.Spells(s, v)
    {
      if Decimal.Spells(s, v) {
        var spaces: string, sign: string, digits: string :|
          && Decimal.NumberParts(spaces, sign, digits) && s == spaces + (sign + digits)
          && Decimal.AllDigits(digits) && v == Decimal.Worth(sign, digits);
        StartOfNumber(spaces, sign, digits);
        assert false;
      }
    }
  }

  lemma StartOfNumber(spaces: string, sign: string, digits: string)
    requires Decimal.NumberParts(spaces, sign, digits)
    ensures (spaces + (sign + digits))[0] != '%'
  {
    var s := spaces + (sign + digits);
    assert s[0] == if spaces != "" then spaces[0] else if sign != "" then sign[0] else digits[0];
  }

  /** A rule matches exactly the callers, targets, commands and arguments it is written for. */
  lemma MatchMeans(site: Site, rule: Rule, id: Identity, req: Request)
    ensures RuleMatches(site, rule, id, req) <==>
            IsFor(rule, id) && Targets(rule, req.target) && Covers(site, rule, req.command, req.args)
  {
    IdentityMeans(rule, id);
    TargetMeans(rule, req.target);
    CommandMeans(site, rule, req);
  }

  lemma IdentityMeans(rule: Rule, id: Identity)
    ensures IdentityMatches(rule, id) <==> IsFor(rule, id)
  {
    NumericIdMeans(rule.ident, id.uid);
    if rule.ident != "" && rule.ident[0] == '%' {
      PercentNamesNobody(rule.ident, id.uid);
    }
  }

  lemma TargetMeans(rule: Rule, target: Uid)
    ensures RuleTarget(rule) == Some(target) <==> Targets(rule, target)
  {
    NumericIdMeans(rule.target, target);
  }

  lemma CommandMeans(site: Site, rule: Rule, req: Request)
    ensures (rule.cmd == ""
             || (CanonicalCommand(site, rule) == req.command
                 && (rule.cmdargs == []
                     || ArgumentsMatch(rule.pattern, ExpandAll(rule.cmdargs, site.user), req.args)))) <==>
            Covers(site, rule, req.command, req.args)
  {
    if rule.cmd != "" && rule.cmdargs != [] && |rule.cmdargs| == |req.args| {
      var wanted := ExpandAll(rule.cmdargs, site.user);
      assert forall i | 0 <= i < |req.args| :: wanted[i] == Variables.Expand(rule.cmdargs[i], site.user);
      assert forall i | 0 <= i < |req.args| ::
          ArgumentMatches(rule.pattern, wanted[i], req.args[i]) <==>
          if rule.pattern then Glob.Matches(wanted[i], req.args[i]) else wanted[i] == req.args[i];
    }
  }

  /** The rule is for the caller and the request. */
  ghost predicate Fits(site: Site, rule: Rule, id: Identity, req: Request) {
    IsFor(rule, id) && Targets(rule, req.target) && Covers(site, rule, req.command, req.args)
  }

  /**
   * A request is granted under a rule if and only if the caller is known and the rule is a permit for this
   * caller and this request such that no rule before it is for them.
   */
  lemma GrantedExactly(site: Site, rules: seq<Rule>, identity: Option<Identity>, req: Request, granted: Rule)
    ensures Decision(site, rules, identity, req) == Some(granted) <==>
            && identity.Some? && granted.action.Permit?
            && exists i | 0 <= i < |rules| ::
                 && rules[i] == granted && Fits(site, rules[i], identity.value, req)
                 && forall j | 0 <= j < i :: !Fits(site, rules[j], identity.value, req)
  {
    if identity.Some? {
      var id := identity.value;
      forall j | 0 <= j < |rules|
        ensures RuleMatches(site, rules[j], id, req) <==> Fits(site, rules[j], id, req)
      {
        MatchMeans(site, rules[j], id, req);
      }
      if granted.action.Permit? && exists i | 0 <= i < |rules| ::
           && rules[i] == granted && Fits(site, rules[i], id, req)
           && forall j | 0 <= j < i :: !Fits(site, rules[j], id, req)
      {
        var i :| 0 <= i < |rules| && rules[i] == granted && Fits(site, rules[i], id, req)
                 && forall j | 0 <= j < i :: !Fits(site, rules[j], id, req);
        FirstMatchIs(site, rules, id, req, i);
      }
    }
  }

  lemma DecidingRuleFits(site: Site, rules: seq<Rule>, identity: Option<Identity>, req: Request, granted: Rule)
    requires Decision(site, rules, identity, req) == Some(granted)
    ensures identity.Some? && Fits(site, granted, identity.value, req)
  {
    MatchMeans(site, granted, identity.value, req);
  }

  /** What a granted request says about its caller. */
  lemma GrantNamesCaller(site: Site, rules: seq<Rule>, identity: Option<Identity>, req: Request, granted: Rule)
    requires Decision(site, rules, identity, req) == Some(granted)
    ensures identity.Some?
    ensures granted.identUid.Some? ==> granted.identUid.value == identity.value.uid
    ensures granted.identUid.None? && granted.identGid.Some? ==> granted.identGid.value in identity.value.groups
    ensures granted.identUid.None? && granted.identGid.None? && granted.ident != "" ==>
              granted.ident[0] != '%' && NamesId(granted.ident, identity.value.uid)
  {
    MatchMeans(site, granted, identity.value, req);
    if granted.ident != "" && granted.ident[0] == '%' {
      PercentNamesNobody(granted.ident, identity.value.uid);
    }
  }
}
