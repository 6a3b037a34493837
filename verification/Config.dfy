/** Rules as the configuration file gives them. */
module Config {
  import opened Text
  import opened Acl
  import Environment
  import Glob
  import Listing

  /** The entries of one rule, as the YAML library reads them; `targetUid` is the look-up of the target's name. */
  datatype RuleNode = RuleNode(
    action: Option<string>, options: seq<string>, profile: string, env: seq<string>,
    target: Option<string>, targetUid: Option<Uid>, command: string, args: seq<string>)

  predicate Letter(c: char) {
    'a' <= c <= 'z' || 'A' <= c <= 'Z' || c == '_'
  }

  predicate Identifier(key: string) {
    && key != ""
    && Letter(key[0])
    && forall i | 0 < i < |key| :: Letter(key[i]) || '0' <= key[i] <= '9'
  }

  /** KEY=VALUE with an identifier before the first equals sign. */
  predicate EnvEntry(entry: string) {
    var eq := IndexOf(entry, '=');
    eq.Some? && Identifier(entry[..eq.value])
  }

  /** The character code is that of an ASCII letter or the underscore. */
  predicate LetterCode(code: int) {
    65 <= code <= 90 || code == 95 || 97 <= code <= 122
  }

  /**
   * An entry is admitted exactly if what is before its first equals sign is a name of ASCII letters, digits and
   * underscores that does not start with a digit.
   */
  lemma {:induction false} EnvEntryExactly(key: string, value: string)
    requires '=' !in key
    ensures !EnvEntry(key)
    ensures EnvEntry(key + "=" + value) <==>
            && key != "" && LetterCode(key[0] as int)
            && forall i | 0 < i < |key| :: LetterCode(key[i] as int) || 48 <= key[i] as int <= 57
  {
    var entry := key + "=" + value;
    IndexOfUnique(key, '=', value);
    assert entry == key + ['='] + value && entry[..|key|] == key;
    assert EnvEntry(entry) <==> Identifier(key);
    assert forall i | 0 <= i < |key| :: Letter(key[i]) <==> LetterCode(key[i] as int);
  }

  /** `parse_rule`; None stands for the exception on an invalid environment entry. */
  method ParseRule(node: RuleNode) returns (parsed: Option<Rule>)
    ensures parsed.None? <==> exists i | 0 <= i < |node.env| :: !EnvEntry(node.env[i])
    ensures parsed.Some? ==>
              var rule := parsed.value;
              && (rule.action.Permit? <==> node.action.None? || node.action.value == "permit")
              && (rule.nopass <==> "trust" in node.options || "nopass" in node.options)
              && (rule.keepenv <==> "keepenv" in node.options)
              && (rule.persist <==> "persist" in node.options)
              && (rule.nolog <==> "nolog" in node.options)
              && rule.profile == node.profile && rule.envlist == node.env
              && rule.cmd == node.command && rule.cmdargs == node.args
              && rule.target == (if node.target.Some? then node.target.value else "")
              && rule.targetUid == (if node.target.Some? then node.targetUid else None)
              && Listing.PatternFlagSet(rule)
              && Environment.GoodEnvlist(rule.envlist)
  {
    var action := if node.action.None? || node.action.value == "permit" then Permit else Deny;
    var nopass, keepenv, persist, nolog := ParseOptions(node.options);
    var envlist: seq<string> := [];
    for i := 0 to |node.env|
      invariant envlist == node.env[..i]
      invariant forall j | 0 <= j < i :: EnvEntry(node.env[j])
    {
      if !EnvEntry(node.env[i]) {
        return None;
      }
      envlist := envlist + [node.env[i]];
    }
    assert envlist == node.env;
    IdentifiersAreGood(node.env);
    var cmdargs: seq<string> := [];
    var pattern := false;
    for i := 0 to |node.args|
      invariant cmdargs == node.args[..i]
      invariant pattern <==> exists j | 0 <= j < i :: Glob.HasGlob(node.args[j])
    {
      cmdargs := cmdargs + [node.args[i]];
      if '*' in node.args[i] || '?' in node.args[i] {
        pattern := true;
      }
    }
    assert cmdargs == node.args;
    return Some(Rule("", None, None,
                     if node.target.Some? then node.target.value else "",
                     if node.target.Some? then node.targetUid else None,
                     node.command, cmdargs, envlist, node.profile, action,
                     nopass, keepenv, persist, nolog, pattern));
  }

  /** The options loop; unknown options are ignored. */
  method ParseOptions(options: seq<string>) returns (nopass: bool, keepenv: bool, persist: bool, nolog: bool)
    ensures nopass <==> "trust" in options || "nopass" in options
    ensures keepenv <==> "keepenv" in options
    ensures persist <==> "persist" in options
    ensures nolog <==> "nolog" in options
  {
    nopass, keepenv, persist, nolog := false, false, false, false;
    for i := 0 to |options|
      invariant nopass <==> "trust" in options[..i] || "nopass" in options[..i]
      invariant keepenv <==> "keepenv" in options[..i]
      invariant persist <==> "persist" in options[..i]
      invariant nolog <==> "nolog" in options[..i]
    {
      var opt := options[i];
      assert options[..i + 1] == options[..i] + [opt];
      if opt == "trust" || opt == "nopass" {
        nopass := true;
      } else if opt == "keepenv" {
        keepenv := true;
      } else if opt == "persist" {
        persist := true;
      } else if opt == "nolog" {
        nolog := true;
      }
    }
    assert options[..|options|] == options;
  }

  /** Admitted environment entries are fit for the map semantics of the environment. */
  lemma {:induction false} IdentifiersAreGood(env: seq<string>)
    requires forall i | 0 <= i < |env| :: EnvEntry(env[i])
    ensures Environment.GoodEnvlist(env)
  {
    if env != [] {
      assert forall i | 0 <= i < |env[1..]| :: env[1..][i] == env[i + 1];
      IdentifiersAreGood(env[1..]);
      var key := env[0][..IndexOf(env[0], '=').value];
      assert EnvEntry(env[0]);
      assert forall i | 0 <= i < |key| :: key[i] != NUL;
    }
  }
}
