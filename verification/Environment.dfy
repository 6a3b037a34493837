/**
 * The environment of the command. The program keeps a list of pairs, rewrites it in place, and replays
 * it with `setenv`. The theorems compare the outcome with plain maps.
 */
module Environment {
  import opened Text

  type Pair = (string, string)

  type Env = seq<Pair>

  /** How much of the caller's environment is kept. */
  datatype Tier = Scrubbed | Keepenv | Unfiltered

  /** The profile asks for everything; otherwise a grant of the rule or of the profile keeps the harmless part. */
  function TierOf(preserveFull: bool, preserveEnv: bool, scrubEnvironment: bool): Tier {
    if preserveFull then Unfiltered else if preserveEnv || !scrubEnvironment then Keepenv else Scrubbed
  }

  predicate Whitelisted(key: string) {
    key in {"TERM", "DISPLAY", "XAUTHORITY", "LANG", "PATH"}
  }

  const DANGEROUS_PREFIXES := {"LD_", "CC", "CXX", "CMAKE_", "PERL", "PYTHON", "RUBY"}

  predicate Dangerous(key: string) {
    || key in {"BASH_ENV", "ENV", "IFS", "CDPATH", "GCONV_PATH", "GETCONF_DIR", "HOSTALIASES"}
    || exists prefix | prefix in DANGEROUS_PREFIXES :: prefix <= key
  }

  predicate Passes(tier: Tier, key: string) {
    match tier
    case Unfiltered => true
    case Keepenv => !Dangerous(key)
    case Scrubbed => Whitelisted(key)
  }

  /** A raw entry as key and value; None when it has no equals sign. */
  function Decode(entry: string): Option<Pair> {
    match IndexOf(entry, '=')
    case None => None
    case Some(i) => Some((entry[..i], entry[i + 1..]))
  }

  function Encode(p: Pair): string {
    p.0 + "=" + p.1
  }

  function Kept(tier: Tier, entry: string): Env {
    var p := Decode(entry);
    if p.Some? && Passes(tier, p.value.0) then [p.value] else []
  }

  /** The pairs of the raw entries that pass, in order. */
  function Retained(tier: Tier, raw: seq<string>): Env {
    if raw == [] then [] else Kept(tier, raw[0]) + Retained(tier, raw[1..])
  }

  /** `sanitize_environment`. */
  method SanitizeEnvironment(preserveFull: bool, preserveEnv: bool, scrubEnvironment: bool, raw: seq<string>)
    returns (env: Env)
    ensures env == Retained(TierOf(preserveFull, preserveEnv, scrubEnvironment), raw)
  {
    var preserveSanitized := !preserveFull && (preserveEnv || !scrubEnvironment);
    ghost var tier := TierOf(preserveFull, preserveEnv, scrubEnvironment);
    env := [];
    assert raw[0..] == raw;
    for i := 0 to |raw|
      invariant env + Retained(tier, raw[i..]) == Retained(tier, raw)
    {
      Advance(tier, env, raw, i);
      var pos := IndexOf(raw[i], '=');
      if pos.None? {
        continue;
      }
      var key := raw[i][..pos.value];
      if !preserveFull {
        if preserveSanitized && Dangerous(key) {
          continue;
        }
        if !preserveSanitized && !Whitelisted(key) {
          continue;
        }
      }
      env := env + [(key, raw[i][pos.value + 1..])];
    }
    assert raw[|raw|..] == [] && env + [] == env;
  }

  lemma Advance(tier: Tier, env: Env, raw: seq<string>, i: nat)
    requires i < |raw|
    ensures env + Retained(tier, raw[i..]) == (env + Kept(tier, raw[i])) + Retained(tier, raw[i + 1..])
    ensures env + [] == env
  {
  }

  // ---- The three levels ----------------------------------------------------------------------

  ghost predicate Subsequence<T(!new)>(xs: seq<T>, ys: seq<T>) {
    xs == [] || (ys != [] && (Subsequence(xs, ys[1..]) || (xs[0] == ys[0] && Subsequence(xs[1..], ys[1..]))))
  }

  lemma {:induction false} SubsequencePrepend<T(!new)>(x: T, xs: seq<T>, ys: seq<T>)
    requires Subsequence(xs, ys)
    ensures Subsequence([x] + xs, [x] + ys)
    ensures Subsequence(xs, [x] + ys)
  {
  }

  /** The kept names are harmless, so each level lets through what the stricter one does. */
  lemma LevelsOrdered(key: string)
    ensures Passes(Scrubbed, key) ==> Passes(Keepenv, key)
    ensures Passes(Keepenv, key) ==> Passes(Unfiltered, key)
  {
    if Whitelisted(key) {
      forall prefix | prefix in DANGEROUS_PREFIXES
        ensures !(prefix <= key)
      {
        assert prefix[0] != key[0] || prefix[1] != key[1];
      }
    }
  }

  predicate Stricter(a: Tier, b: Tier) {
    a == Scrubbed || (a == Keepenv && b != Scrubbed) || b == Unfiltered
  }

  /** Scrubbed output is a subsequence of keepenv output, and that of the full one. */
  lemma {:induction false} TiersOrdered(a: Tier, b: Tier, raw: seq<string>)
    requires Stricter(a, b)
    ensures Subsequence(Retained(a, raw), Retained(b, raw))
  {
    if raw != [] {
      TiersOrdered(a, b, raw[1..]);
      var p := Decode(raw[0]);
      if p.Some? {
        LevelsOrdered(p.value.0);
        if Passes(b, p.value.0) {
          SubsequencePrepend(p.value, Retained(a, raw[1..]), Retained(b, raw[1..]));
        }
      }
      assert [] + Retained(a, raw[1..]) == Retained(a, raw[1..]);
      assert [] + Retained(b, raw[1..]) == Retained(b, raw[1..]);
    }
  }

  function EncodeAll(env: Env): seq<string> {
    if env == [] then [] else [Encode(env[0])] + EncodeAll(env[1..])
  }

  lemma DecodeEncode(p: Pair)
    requires '=' !in p.0
    ensures Decode(Encode(p)) == Some(p)
  {
    IndexOfUnique(p.0, '=', p.1);
    assert Encode(p) == p.0 + ['='] + p.1;
    assert Encode(p)[..|p.0|] == p.0 && Encode(p)[|p.0| + 1..] == p.1;
  }

  /** Filtering twice is filtering once. */
  lemma {:induction false} FilterIdempotent(tier: Tier, raw: seq<string>)
    ensures Retained(tier, EncodeAll(Retained(tier, raw))) == Retained(tier, raw)
  {
    if raw != [] {
      FilterIdempotent(tier, raw[1..]);
      var rest := Retained(tier, raw[1..]);
      var p := Decode(raw[0]);
      if p.Some? && Passes(tier, p.value.0) {
        DecodeEncode(p.value);
        assert Retained(tier, raw)[1..] == rest;
        var again := EncodeAll(Retained(tier, raw));
        assert again[0] == Encode(p.value) && again[1..] == EncodeAll(rest);
      } else {
        assert [] + rest == rest;
      }
    }
  }

  // ---- Lists of pairs and maps ---------------------------------------------------------------

  /** Where `set_entry` finds its key. */
  function FirstOf(env: Env, key: string): (r: Option<nat>)
    ensures r.Some? ==> r.value < |env| && env[r.value].0 == key
    ensures forall i | 0 <= i < |env| && (r.None? || i < r.value) :: env[i].0 != key
  {
    if env == [] then None
    else if env[0].0 == key then Some(0)
    else
      match FirstOf(env[1..], key)
      case None => None
      case Some(i) => Some(i + 1)
  }

  function WithEntry(env: Env, key: string, value: string): Env {
    var at := FirstOf(env, key);
    if at.Some? then env[at.value := (key, value)] else env + [(key, value)]
  }

  /** `set_entry`: rewrite the first entry with the key, or append one. */
  method SetEntry(env: Env, key: string, value: string) returns (env': Env)
    ensures env' == WithEntry(env, key, value)
  {
    env' := env;
    for i := 0 to |env|
      invariant env' == env
      invariant forall j | 0 <= j < i :: env[j].0 != key
    {
      if env'[i].0 == key {
        assert FirstOf(env, key) == Some(i);
        return env'[i := (key, value)];
      }
    }
    env' := env' + [(key, value)];
  }

  /** One `setenv` call: an empty name is refused, and the C strings end at a NUL. */
  function SetEnv(m: map<string, string>, key: string, value: string): map<string, string> {
    if CStr(key) == "" then m else m[CStr(key) := CStr(value)]
  }

  /** The process environment after `clearenv` and one `setenv` for each pair. */
  function Replayed(env: Env): map<string, string> {
    if env == [] then map[]
    else SetEnv(Replayed(env[..|env| - 1]), env[|env| - 1].0, env[|env| - 1].1)
  }

  predicate NulFreeKeys(env: Env) {
    forall i | 0 <= i < |env| :: NUL !in env[i].0
  }

  function Count(env: Env, key: string): nat {
    if env == [] then 0 else (if env[0].0 == key then 1 else 0) + Count(env[1..], key)
  }

  /** The value of the last entry with the key. */
  function LastValue(env: Env, key: string): (r: Option<string>)
    ensures r.None? <==> Count(env, key) == 0
  {
    if env == [] then None
    else
      var later := LastValue(env[1..], key);
      if later.Some? then later else if env[0].0 == key then Some(env[0].1) else None
  }

  lemma {:induction false} LastValueJoin(a: Env, b: Env, key: string)
    ensures LastValue(a + b, key) == if LastValue(b, key).Some? then LastValue(b, key) else LastValue(a, key)
  {
    if a == [] {
      assert a + b == b;
    } else {
      assert (a + b)[1..] == a[1..] + b;
      LastValueJoin(a[1..], b, key);
    }
  }

  function Lookup(m: map<string, string>, key: string): Option<string> {
    if key in m then Some(m[key]) else None
  }

  /** What a process reads of a value that was set from a C++ string. */
  function AsRead(value: Option<string>): Option<string> {
    if value.None? then None else Some(CStr(value.value))
  }

  /** The replay ends with the last entry of each name; the empty name is never set. */
  lemma {:induction false} ReplayedLookup(env: Env, key: string)
    requires NulFreeKeys(env)
    ensures Lookup(Replayed(env), key) == if key == "" then None else AsRead(LastValue(env, key))
  {
    if env != [] {
      var front, last := env[..|env| - 1], env[|env| - 1];
      ReplayedLookup(front, key);
      LastValueJoin(front, [last], key);
      assert env == front + [last] && [last][1..] == [];
      assert CStr(last.0) == last.0;
    }
  }

  /** `set_entry` by recursion on the list. */
  lemma WithEntryCons(env: Env, key: string, value: string)
    requires env != []
    ensures WithEntry(env, key, value) ==
            if env[0].0 == key then [(key, value)] + env[1..] else [env[0]] + WithEntry(env[1..], key, value)
  {
    assert env == [env[0]] + env[1..];
  }

  /**
   * After `set_entry` the last entry of the name has the new value if the name is on the list once at most;
   * if it is repeated, the last one is another entry and stays. Other names are not concerned.
   */
  lemma {:induction false} WithEntryLast(env: Env, k: string, v: string, key: string)
    ensures var env' := WithEntry(env, k, v);
            && LastValue(env', key) == (if key == k && Count(env, key) <= 1 then Some(v) else LastValue(env, key))
            && (Count(env', key) <= 1 <==> Count(env, key) <= 1)
  {
    if env == [] {
      assert WithEntry(env, k, v) == [(k, v)] && [(k, v)][1..] == [];
    } else {
      WithEntryCons(env, k, v);
      var rest := env[1..];
      if env[0].0 == k {
        assert ([(k, v)] + rest)[1..] == rest;
      } else {
        assert ([env[0]] + WithEntry(rest, k, v))[1..] == WithEntry(rest, k, v);
        WithEntryLast(rest, k, v, key);
      }
    }
  }

  // ---- The whole construction ----------------------------------------------------------------

  /** What the target, the configuration and the options put over the caller's variables, in order. */
  datatype Overrides = Overrides(
    searchPath: string, username: string, homeDir: string, shell: string,
    loginShell: bool, setHome: bool, envlist: seq<string>)

  function PathPart(tier: Tier, o: Overrides): Env {
    if tier.Scrubbed? then [("PATH", o.searchPath)] else []
  }

  function NamePart(o: Overrides): Env {
    [("USER", o.username), ("LOGNAME", o.username)]
  }

  function HomePart(o: Overrides): Env {
    if o.setHome || o.loginShell then [("HOME", o.homeDir)] else []
  }

  function ShellPart(o: Overrides): Env {
    if o.loginShell then [("SHELL", if o.shell == "" then "/bin/sh" else o.shell)] else []
  }

  function ListOf(tier: Tier, o: Overrides): Env {
    PathPart(tier, o) + (NamePart(o) + (HomePart(o) + (ShellPart(o) + Retained(Unfiltered, o.envlist))))
  }

  function SetAll(env: Env, entries: Env): Env
    decreases |entries|
  {
    if entries == [] then env else SetAll(WithEntry(env, entries[0].0, entries[0].1), entries[1..])
  }

  lemma {:induction false} SetAllJoin(env: Env, a: Env, b: Env)
    ensures SetAll(env, a + b) == SetAll(SetAll(env, a), b)
    decreases |a|
  {
    if a == [] {
      assert a + b == b;
    } else {
      assert (a + b)[1..] == a[1..] + b;
      SetAllJoin(WithEntry(env, a[0].0, a[0].1), a[1..], b);
    }
  }

  lemma {:induction false} SetAllParts(env: Env, tier: Tier, o: Overrides)
    ensures SetAll(env, ListOf(tier, o)) ==
            SetAll(SetAll(SetAll(SetAll(SetAll(env, PathPart(tier, o)), NamePart(o)), HomePart(o)), ShellPart(o)),
                   Retained(Unfiltered, o.envlist))
  {
    var last := Retained(Unfiltered, o.envlist);
    SetAllJoin(env, PathPart(tier, o), NamePart(o) + (HomePart(o) + (ShellPart(o) + last)));
    var e1 := SetAll(env, PathPart(tier, o));
    SetAllJoin(e1, NamePart(o), HomePart(o) + (ShellPart(o) + last));
    var e2 := SetAll(e1, NamePart(o));
    SetAllJoin(e2, HomePart(o), ShellPart(o) + last);
    SetAllJoin(SetAll(e2, HomePart(o)), ShellPart(o), last);
  }

  lemma SetAllOne(env: Env, key: string, value: string)
    ensures SetAll(env, [(key, value)]) == WithEntry(env, key, value)
  {
  }

  lemma SetAllTwo(env: Env, p: Pair, q: Pair)
    ensures SetAll(env, [p, q]) == WithEntry(WithEntry(env, p.0, p.1), q.0, q.1)
  {
    assert [p, q][1..] == [q];
    SetAllOne(WithEntry(env, p.0, p.1), q.0, q.1);
  }

  /** `build_environment`. */
  method BuildEnvironment(tier: Tier, o: Overrides, saved: Env) returns (env: Env)
    ensures env == SetAll(saved, ListOf(tier, o))
  {
    env := saved;
    if tier.Scrubbed? {
      SetAllOne(env, "PATH", o.searchPath);
      env := SetEntry(env, "PATH", o.searchPath);
    }
    SetAllTwo(env, ("USER", o.username), ("LOGNAME", o.username));
    env := SetEntry(env, "USER", o.username);
    env := SetEntry(env, "LOGNAME", o.username);
    if o.setHome || o.loginShell {
      SetAllOne(env, "HOME", o.homeDir);
      env := SetEntry(env, "HOME", o.homeDir);
    }
    if o.loginShell {
      var shell := if o.shell == "" then "/bin/sh" else o.shell;
      SetAllOne(env, "SHELL", shell);
      env := SetEntry(env, "SHELL", shell);
    }
    env := ApplyEnvlist(env, o.envlist);
    SetAllParts(saved, tier, o);
  }

  /** The last loop of `build_environment`: the entries of the rule. */
  method ApplyEnvlist(start: Env, envlist: seq<string>) returns (env: Env)
    ensures env == SetAll(start, Retained(Unfiltered, envlist))
  {
    env := start;
    assert envlist[0..] == envlist;
    for i := 0 to |envlist|
      invariant SetAll(env, Retained(Unfiltered, envlist[i..])) == SetAll(start, Retained(Unfiltered, envlist))
    {
      RetainedStep(env, envlist, i);
      var eq := IndexOf(envlist[i], '=');
      if eq.Some? {
        env := SetEntry(env, envlist[i][..eq.value], envlist[i][eq.value + 1..]);
      }
    }
    assert envlist[|envlist|..] == [];
  }

  lemma RetainedStep(env: Env, envlist: seq<string>, i: nat)
    requires i < |envlist|
    ensures var p := Decode(envlist[i]);
            SetAll(env, Retained(Unfiltered, envlist[i..])) ==
            SetAll(if p.Some? then WithEntry(env, p.value.0, p.value.1) else env,
                   Retained(Unfiltered, envlist[i + 1..]))
  {
    assert envlist[i..][1..] == envlist[i + 1..];
    var rest := Retained(Unfiltered, envlist[i + 1..]);
    var p := Decode(envlist[i]);
    if p.Some? {
      assert Retained(Unfiltered, envlist[i..]) == [p.value] + rest;
      assert ([p.value] + rest)[1..] == rest;
    } else {
      assert Retained(Unfiltered, envlist[i..]) == [] + rest == rest;
    }
  }

  /** `apply_environment`: clear the process environment, then set the entries of the list one by one. */
  method ApplyEnvironment(tier: Tier, o: Overrides, saved: Env) returns (environ: map<string, string>)
    ensures environ == Replayed(SetAll(saved, ListOf(tier, o)))
  {
    environ := map[];
    var env := BuildEnvironment(tier, o, saved);
    for i := 0 to |env|
      invariant environ == Replayed(env[..i])
    {
      assert env[..i + 1][..i] == env[..i];
      environ := SetEnv(environ, env[i].0, env[i].1);
    }
    assert env[..|env|] == env;
  }

  /** Setting entries in order: the last one of a name wins, unless the list repeats the name. */
  lemma {:induction false} SetAllLast(env: Env, entries: Env, key: string)
    ensures LastValue(SetAll(env, entries), key) ==
            if Count(env, key) <= 1 && LastValue(entries, key).Some? then LastValue(entries, key)
            else LastValue(env, key)
    decreases |entries|
  {
    if entries != [] {
      WithEntryLast(env, entries[0].0, entries[0].1, key);
      SetAllLast(WithEntry(env, entries[0].0, entries[0].1), entries[1..], key);
    }
  }

  lemma {:induction false} SetAllNulFree(env: Env, entries: Env)
    requires NulFreeKeys(env) && NulFreeKeys(entries)
    ensures NulFreeKeys(SetAll(env, entries))
    decreases |entries|
  {
    if entries != [] {
      SetAllNulFree(WithEntry(env, entries[0].0, entries[0].1), entries[1..]);
    }
  }

  /** Filtering goes by name only. */
  lemma {:induction false} RetainedLast(tier: Tier, raw: seq<string>, key: string)
    ensures LastValue(Retained(tier, raw), key) ==
            if Passes(tier, key) then LastValue(Retained(Unfiltered, raw), key) else None
    ensures Count(Retained(tier, raw), key) == if Passes(tier, key) then Count(Retained(Unfiltered, raw), key) else 0
  {
    if raw != [] {
      RetainedLast(tier, raw[1..], key);
      KeptLast(tier, raw[0], Retained(tier, raw[1..]), key);
      KeptLast(Unfiltered, raw[0], Retained(Unfiltered, raw[1..]), key);
    }
  }

  lemma KeptLast(tier: Tier, entry: string, rest: Env, key: string)
    ensures var hit := Decode(entry).Some? && Decode(entry).value.0 == key && Passes(tier, key);
            && LastValue(Kept(tier, entry) + rest, key) ==
               (if LastValue(rest, key).Some? then LastValue(rest, key)
                else if hit then Some(Decode(entry).value.1) else None)
            && Count(Kept(tier, entry) + rest, key) == (if hit then 1 else 0) + Count(rest, key)
  {
    var kept := Kept(tier, entry);
    assert kept == [] ==> kept + rest == rest;
    assert kept != [] ==> (kept + rest)[1..] == rest;
  }

  predicate NulFree(raw: seq<string>) {
    forall i | 0 <= i < |raw| :: NUL !in raw[i]
  }

  /** The keys of administrator entries hold no NUL; the configuration loader admits only identifiers. */
  predicate GoodEnvlist(envlist: seq<string>) {
    NulFreeKeys(Retained(Unfiltered, envlist))
  }

  lemma {:induction false} RetainedNulFree(tier: Tier, raw: seq<string>)
    requires NulFree(raw)
    ensures NulFreeKeys(Retained(tier, raw))
  {
    if raw != [] {
      assert forall i | 0 <= i < |raw[1..]| :: raw[1..][i] == raw[i + 1];
      RetainedNulFree(tier, raw[1..]);
      assert NUL !in raw[0];
    }
  }

  lemma {:induction false} OverridesNulFree(tier: Tier, o: Overrides)
    requires GoodEnvlist(o.envlist)
    ensures NulFreeKeys(ListOf(tier, o))
  {
  }

  /** What the program itself puts in, whatever the caller has. */
  function Imposed(tier: Tier, o: Overrides, key: string): Option<string> {
    if key == "USER" || key == "LOGNAME" then Some(o.username)
    else if key == "HOME" && (o.setHome || o.loginShell) then Some(o.homeDir)
    else if key == "SHELL" && o.loginShell then Some(if o.shell == "" then "/bin/sh" else o.shell)
    else if key == "PATH" && tier.Scrubbed? then Some(o.searchPath)
    else None
  }

  /** What is put over the caller's value: the last entry of the administrator, else what the program imposes. */
  function Override(tier: Tier, o: Overrides, key: string): Option<string> {
    var admin := LastValue(Retained(Unfiltered, o.envlist), key);
    if admin.Some? then admin else Imposed(tier, o, key)
  }

  lemma OverrideIsLast(tier: Tier, o: Overrides, key: string)
    ensures LastValue(ListOf(tier, o), key) == Override(tier, o, key)
  {
    var envlist := Retained(Unfiltered, o.envlist);
    LastValueJoin(PathPart(tier, o), NamePart(o) + (HomePart(o) + (ShellPart(o) + envlist)), key);
    LastValueJoin(NamePart(o), HomePart(o) + (ShellPart(o) + envlist), key);
    LastValueJoin(HomePart(o), ShellPart(o) + envlist, key);
    LastValueJoin(ShellPart(o), envlist, key);
    assert NamePart(o)[1..] == [("LOGNAME", o.username)];
  }

  /** The value of the caller's last entry with the name, if the tier lets the name pass. */
  function CallerValue(tier: Tier, raw: seq<string>, key: string): Option<string> {
    if Passes(tier, key) then LastValue(Retained(Unfiltered, raw), key) else None
  }

  /** The name survives the filter more than once. */
  predicate Repeated(tier: Tier, raw: seq<string>, key: string) {
    Passes(tier, key) && Count(Retained(Unfiltered, raw), key) > 1
  }

  /** The environment of the command. */
  function Environ(tier: Tier, o: Overrides, raw: seq<string>): map<string, string> {
    Replayed(SetAll(Retained(tier, raw), ListOf(tier, o)))
  }

  /**
   * The list loops equal a map, name by name: the override if there is one, else the caller's filtered
   * value. Only a name the caller repeats escapes its override, because the list update rewrites the first
   * entry and the replay lets the last one win.
   */
  lemma {:induction false} EnvironmentByName(tier: Tier, o: Overrides, raw: seq<string>, key: string)
    requires NulFree(raw) && GoodEnvlist(o.envlist)
    ensures Lookup(Environ(tier, o, raw), key) ==
            if key == "" then None
            else if Override(tier, o, key).Some? && !Repeated(tier, raw, key) then AsRead(Override(tier, o, key))
            else AsRead(CallerValue(tier, raw, key))
  {
    RetainedNulFree(tier, raw);
    OverridesNulFree(tier, o);
    SetAllNulFree(Retained(tier, raw), ListOf(tier, o));
    ReplayedLookup(SetAll(Retained(tier, raw), ListOf(tier, o)), key);
    SetAllLast(Retained(tier, raw), ListOf(tier, o), key);
    OverrideIsLast(tier, o, key);
    RetainedLast(tier, raw, key);
  }

  /** The command sees an override exactly when its name is not repeated, or the caller's last entry says the same. */
  lemma {:induction false} OverrideTakesEffect(tier: Tier, o: Overrides, raw: seq<string>, key: string)
    requires NulFree(raw) && GoodEnvlist(o.envlist) && key != "" && Override(tier, o, key).Some?
    ensures Lookup(Environ(tier, o, raw), key) == AsRead(Override(tier, o, key)) <==>
            !Repeated(tier, raw, key) || AsRead(CallerValue(tier, raw, key)) == AsRead(Override(tier, o, key))
  {
    EnvironmentByName(tier, o, raw, key);
  }

  // ---- Names, tier by tier --------------------------------------------------------------------

  /** The last entry for the name in the raw environment is for this value. */
  ghost predicate LastSays(raw: seq<string>, key: string, value: string) {
    exists i | 0 <= i < |raw| ::
      raw[i] == key + "=" + value && forall j | i < j < |raw| :: !(key + "=" <= raw[j])
  }

  lemma {:induction false} DecodeExactly(entry: string, key: string)
    requires '=' !in key
    ensures key + "=" <= entry ==> Decode(entry) == Some((key, entry[|key| + 1..]))
    ensures !(key + "=" <= entry) ==> Decode(entry).None? || Decode(entry).value.0 != key
  {
    if key + "=" <= entry {
      var value := entry[|key| + 1..];
      IndexOfUnique(key, '=', value);
      assert entry == key + ['='] + value && entry[..|key|] == key;
    }
  }

  /** Some entry is for the name. */
  ghost predicate Mentions(raw: seq<string>, key: string) {
    exists i | 0 <= i < |raw| :: key + "=" <= raw[i]
  }

  lemma {:induction false} LastSaysStep(raw: seq<string>, key: string, value: string)
    requires raw != []
    ensures LastSays(raw, key, value) <==>
            LastSays(raw[1..], key, value) || (raw[0] == key + "=" + value && !Mentions(raw[1..], key))
  {
    var rest := raw[1..];
    assert forall i | 0 <= i < |rest| :: rest[i] == raw[i + 1];
    if LastSays(rest, key, value) {
      var i :| 0 <= i < |rest| && rest[i] == key + "=" + value && forall j | i < j < |rest| :: !(key + "=" <= rest[j]);
      assert forall j | i + 1 < j < |raw| :: raw[j] == rest[j - 1];
      assert raw[i + 1] == key + "=" + value;
    }
    if LastSays(raw, key, value) {
      var i :| 0 <= i < |raw| && raw[i] == key + "=" + value && forall j | i < j < |raw| :: !(key + "=" <= raw[j]);
      assert i > 0 ==> rest[i - 1] == key + "=" + value;
    }
    if raw[0] == key + "=" + value && !Mentions(rest, key) {
      assert forall j | 0 < j < |raw| :: raw[j] == rest[j - 1];
    }
  }

  /** The value of a name is that of its last entry. */
  lemma {:induction false} LastValueExactly(raw: seq<string>, key: string, value: string)
    requires '=' !in key
    ensures LastValue(Retained(Unfiltered, raw), key) == Some(value) <==> LastSays(raw, key, value)
  {
    if raw != [] {
      LastValueExactly(raw[1..], key, value);
      LastSaysStep(raw, key, value);
      LaterIsFound(raw[1..], key);
      FirstStep(raw, key);
      if LastSays(raw[1..], key, value) {
        assert LastValue(Retained(Unfiltered, raw[1..]), key) == Some(value);
      }
      EntryFor(raw[0], key, value);
    }
  }

  lemma {:induction false} EntryFor(entry: string, key: string, value: string)
    ensures entry == key + "=" + value <==> key + "=" <= entry && entry[|key| + 1..] == value
  {
    if key + "=" <= entry {
      assert entry == (key + "=") + entry[|key| + 1..];
    }
  }

  /** The value of a name by its first entry: a later one counts, else this one if it is for the name. */
  lemma {:induction false} FirstStep(raw: seq<string>, key: string)
    requires raw != [] && '=' !in key
    ensures var later := LastValue(Retained(Unfiltered, raw[1..]), key);
            LastValue(Retained(Unfiltered, raw), key) ==
            if later.Some? then later
            else if key + "=" <= raw[0] then Some(raw[0][|key| + 1..]) else None
  {
    LastValueJoin(Kept(Unfiltered, raw[0]), Retained(Unfiltered, raw[1..]), key);
    DecodeExactly(raw[0], key);
  }

  lemma {:induction false} LaterIsFound(raw: seq<string>, key: string)
    requires '=' !in key
    ensures LastValue(Retained(Unfiltered, raw), key).Some? <==> Mentions(raw, key)
  {
    if raw != [] {
      var rest := raw[1..];
      assert forall i | 0 <= i < |rest| :: rest[i] == raw[i + 1];
      LaterIsFound(rest, key);
      FirstStep(raw, key);
      if i :| 0 <= i < |raw| && key + "=" <= raw[i] {
        assert i > 0 ==> key + "=" <= rest[i - 1];
      }
    }
  }

  /** Two entries are for the name. */
  ghost predicate Twice(raw: seq<string>, key: string) {
    exists i, j | 0 <= i < j < |raw| :: key + "=" <= raw[i] && key + "=" <= raw[j]
  }

  lemma {:induction false} CountStep(raw: seq<string>, key: string)
    requires raw != [] && '=' !in key
    ensures Count(Retained(Unfiltered, raw), key) ==
            (if key + "=" <= raw[0] then 1 else 0) + Count(Retained(Unfiltered, raw[1..]), key)
  {
    DecodeExactly(raw[0], key);
    var kept, later := Kept(Unfiltered, raw[0]), Retained(Unfiltered, raw[1..]);
    if kept == [] {
      assert kept + later == later;
    } else {
      assert kept + later == [kept[0]] + later && (kept + later)[1..] == later;
    }
  }

  lemma {:induction false} CountExactly(raw: seq<string>, key: string)
    requires '=' !in key
    ensures Count(Retained(Unfiltered, raw), key) > 0 <==> Mentions(raw, key)
    ensures Count(Retained(Unfiltered, raw), key) > 1 <==> Twice(raw, key)
  {
    if raw != [] {
      var rest := raw[1..];
      CountStep(raw, key);
      CountExactly(rest, key);
      TwiceStep(raw, key);
      LaterIsFound(raw, key);
      LaterIsFound(rest, key);
      FirstStep(raw, key);
    }
  }

  lemma {:induction false} TwiceStep(raw: seq<string>, key: string)
    requires raw != []
    ensures Twice(raw, key) <==> Twice(raw[1..], key) || (key + "=" <= raw[0] && Mentions(raw[1..], key))
  {
    var rest := raw[1..];
    assert forall i | 0 <= i < |rest| :: rest[i] == raw[i + 1];
    if Twice(rest, key) {
      var i, j :| 0 <= i < j < |rest| && key + "=" <= rest[i] && key + "=" <= rest[j];
      assert key + "=" <= raw[i + 1] && key + "=" <= raw[j + 1];
    }
    if key + "=" <= raw[0] && Mentions(rest, key) {
      var j :| 0 <= j < |rest| && key + "=" <= rest[j];
      assert key + "=" <= raw[0] && key + "=" <= raw[j + 1];
    }
    if Twice(raw, key) {
      var i, j :| 0 <= i < j < |raw| && key + "=" <= raw[i] && key + "=" <= raw[j];
      assert key + "=" <= rest[j - 1] && (i > 0 ==> key + "=" <= rest[i - 1]);
    }
  }

  /** A name that is let through: its override, unless there is none or the caller repeats the name. */
  function LetThrough(override: Option<string>, raw: seq<string>, key: string): Option<string> {
    var own := LastValue(Retained(Unfiltered, raw), key);
    AsRead(if override.Some? && Count(Retained(Unfiltered, raw), key) <= 1 then override else own)
  }

  /**
   * The keepenv tier, name by name: the seven names and the seven prefixes are the override's or nothing, all
   * other names are let through.
   */
  lemma {:induction false} KeepenvExactly(o: Overrides, raw: seq<string>, key: string)
    requires NulFree(raw) && GoodEnvlist(o.envlist) && key != ""
    ensures var found, override := Lookup(Environ(Keepenv, o, raw), key), Override(Keepenv, o, key);
            if || key == "BASH_ENV" || key == "ENV" || key == "IFS" || key == "CDPATH" || key == "GCONV_PATH"
               || key == "GETCONF_DIR" || key == "HOSTALIASES"
               || "LD_" <= key || "CC" <= key || "CXX" <= key || "CMAKE_" <= key || "PERL" <= key
               || "PYTHON" <= key || "RUBY" <= key
            then found == AsRead(override)
            else found == LetThrough(override, raw, key)
  {
    EnvironmentByName(Keepenv, o, raw, key);
    DangerousNames(key);
  }

  lemma DangerousNames(key: string)
    ensures Dangerous(key) <==>
              || key == "BASH_ENV" || key == "ENV" || key == "IFS" || key == "CDPATH" || key == "GCONV_PATH"
              || key == "GETCONF_DIR" || key == "HOSTALIASES"
              || "LD_" <= key || "CC" <= key || "CXX" <= key || "CMAKE_" <= key || "PERL" <= key
              || "PYTHON" <= key || "RUBY" <= key
  {
    assert "LD_" in DANGEROUS_PREFIXES && "CC" in DANGEROUS_PREFIXES && "CXX" in DANGEROUS_PREFIXES;
    assert "CMAKE_" in DANGEROUS_PREFIXES && "PERL" in DANGEROUS_PREFIXES;
    assert "PYTHON" in DANGEROUS_PREFIXES && "RUBY" in DANGEROUS_PREFIXES;
  }

  /** The program itself puts nothing under the dangerous names. */
  lemma NotImposed(tier: Tier, o: Overrides, key: string)
    requires Dangerous(key)
    ensures key != "" && Override(tier, o, key) == LastValue(Retained(Unfiltered, o.envlist), key)
  {
    if key in {"USER", "LOGNAME", "HOME", "SHELL", "PATH"} {
      forall prefix | prefix in DANGEROUS_PREFIXES
        ensures !(prefix <= key)
      {
        assert prefix[0] != key[0] || prefix[1] != key[1];
      }
    }
  }

  /**
   * The scrubbed tier: of the caller only TERM, DISPLAY, XAUTHORITY and LANG arrive, and PATH, which has an
   * override, only if it is repeated.
   */
  lemma {:induction false} ScrubbedExactly(o: Overrides, raw: seq<string>, key: string)
    requires NulFree(raw) && GoodEnvlist(o.envlist) && key != ""
    ensures var found, override := Lookup(Environ(Scrubbed, o, raw), key), Override(Scrubbed, o, key);
            && found == (if key == "TERM" || key == "DISPLAY" || key == "XAUTHORITY" || key == "LANG" || key == "PATH"
                         then LetThrough(override, raw, key) else AsRead(override))
            && (key == "PATH" ==> override.Some?)
  {
    EnvironmentByName(Scrubbed, o, raw, key);
  }

  /** Without a filter all names are let through. */
  lemma {:induction false} UnfilteredExactly(o: Overrides, raw: seq<string>, key: string)
    requires NulFree(raw) && GoodEnvlist(o.envlist) && key != ""
    ensures Lookup(Environ(Unfiltered, o, raw), key) == LetThrough(Override(Unfiltered, o, key), raw, key)
  {
    EnvironmentByName(Unfiltered, o, raw, key);
  }

  /**
   * What is put over a name: the administrator's last entry for it, else the target's name, home or shell, or
   * the configured search path.
   */
  lemma {:induction false} OverrideExactly(tier: Tier, o: Overrides, key: string, value: string)
    requires '=' !in key
    ensures LastSays(o.envlist, key, value) ==> Override(tier, o, key) == Some(value)
    ensures !Mentions(o.envlist, key) ==>
              Override(tier, o, key) ==
              match key
              case "USER" => Some(o.username)
              case "LOGNAME" => Some(o.username)
              case "HOME" => if o.setHome || o.loginShell then Some(o.homeDir) else None
              case "SHELL" => if !o.loginShell then None else if o.shell == "" then Some("/bin/sh") else Some(o.shell)
              case "PATH" => if tier == Scrubbed then Some(o.searchPath) else None
              case _ => None
  {
    LastValueExactly(o.envlist, key, value);
    LaterIsFound(o.envlist, key);
  }

  lemma TwoEntries(p: Pair, q: Pair)
    requires '=' !in p.0 && '=' !in q.0
    ensures Retained(Unfiltered, [Encode(p), Encode(q)]) == [p, q]
  {
    DecodeEncode(p);
    DecodeEncode(q);
    var raw := [Encode(p), Encode(q)];
    assert raw[1..] == [Encode(q)] && raw[1..][1..] == [];
    assert Retained(Unfiltered, raw[1..]) == [q] + [];
  }

  lemma LastOfTwo(p: Pair, q: Pair)
    requires p.0 == q.0
    ensures LastValue([p, q], p.0) == Some(q.1) && Count([p, q], p.0) == 2
  {
    assert [p, q][1..] == [q] && [q][1..] == [];
  }

  /**
   * Inputs on which an override fails: a name the filter lets pass, set twice by the caller, keeps the
   * caller's second value.
   */
  lemma RepeatedNameSurvives(tier: Tier, o: Overrides, key: string, first: string, second: string)
    requires key != "" && '=' !in key && Passes(tier, key) && GoodEnvlist(o.envlist)
    requires NUL !in key && NUL !in first && NUL !in second
    ensures var raw := [Encode((key, first)), Encode((key, second))];
            Repeated(tier, raw, key) && Lookup(Environ(tier, o, raw), key) == Some(second)
  {
    var p, q := (key, first), (key, second);
    var raw := [Encode(p), Encode(q)];
    TwoEntries(p, q);
    LastOfTwo(p, q);
    assert NulFree(raw);
    EnvironmentByName(tier, o, raw, key);
    assert CallerValue(tier, raw, key) == Some(second);
  }

  /**
   * The case that matters: with PATH twice in the caller's environment the command of the scrubbed tier
   * searches the caller's second PATH and not the configured one.
   */
  lemma RepeatedPathSurvives(o: Overrides, raw: seq<string>)
    requires o.envlist == [] && raw == ["PATH=/bin", "PATH=/tmp"]
    ensures Lookup(Environ(Scrubbed, o, raw), "PATH") == Some("/tmp")
  {
    EncodedPath("/bin");
    EncodedPath("/tmp");
    assert "PATH=" + "/bin" == raw[0] && "PATH=" + "/tmp" == raw[1];
    assert raw == [Encode(("PATH", "/bin")), Encode(("PATH", "/tmp"))];
    RepeatedNameSurvives(Scrubbed, o, "PATH", "/bin", "/tmp");
  }

  lemma EncodedPath(value: string)
    ensures Encode(("PATH", value)) == "PATH=" + value
  {
  }

  /**
   * Two callers the tier cannot tell apart: names it lets pass and that have an override are not repeated,
   * and those without one have the same value, as it is read.
   */
  ghost predicate Alike(tier: Tier, o: Overrides, raw1: seq<string>, raw2: seq<string>) {
    forall key | key != "" && Passes(tier, key) ::
      if Override(tier, o, key).Some? then !Repeated(tier, raw1, key) && !Repeated(tier, raw2, key)
      else AsRead(CallerValue(tier, raw1, key)) == AsRead(CallerValue(tier, raw2, key))
  }

  lemma {:induction false} SameByName(tier: Tier, o: Overrides, raw1: seq<string>, raw2: seq<string>, key: string)
    requires NulFree(raw1) && NulFree(raw2) && GoodEnvlist(o.envlist) && Alike(tier, o, raw1, raw2)
    ensures Lookup(Environ(tier, o, raw1), key) == Lookup(Environ(tier, o, raw2), key)
  {
    EnvironmentByName(tier, o, raw1, key);
    EnvironmentByName(tier, o, raw2, key);
    if key != "" && Passes(tier, key) {
      assert if Override(tier, o, key).Some? then !Repeated(tier, raw1, key) && !Repeated(tier, raw2, key)
             else AsRead(CallerValue(tier, raw1, key)) == AsRead(CallerValue(tier, raw2, key));
    }
  }

  /**
   * Nothing of the caller but the values of the names that pass the tier and have no override has any
   * influence. On the scrubbed tier those are TERM, DISPLAY, XAUTHORITY and LANG at most.
   */
  lemma {:induction false} NonInterference(tier: Tier, o: Overrides, raw1: seq<string>, raw2: seq<string>)
    requires NulFree(raw1) && NulFree(raw2) && GoodEnvlist(o.envlist) && Alike(tier, o, raw1, raw2)
    ensures Environ(tier, o, raw1) == Environ(tier, o, raw2)
  {
    forall key
      ensures Lookup(Environ(tier, o, raw1), key) == Lookup(Environ(tier, o, raw2), key)
    {
      SameByName(tier, o, raw1, raw2, key);
    }
    SameLookups(Environ(tier, o, raw1), Environ(tier, o, raw2));
  }

  /** The callers have the same values under the four names, and repeat none that has an override. */
  predicate AgreeOnFour(o: Overrides, raw1: seq<string>, raw2: seq<string>) {
    forall key | key in {"TERM", "DISPLAY", "XAUTHORITY", "LANG"} ::
      && (Override(Scrubbed, o, key).Some? ==> !Repeated(Scrubbed, raw1, key) && !Repeated(Scrubbed, raw2, key))
      && AsRead(CallerValue(Scrubbed, raw1, key)) == AsRead(CallerValue(Scrubbed, raw2, key))
  }

  /** On the scrubbed tier it is enough that PATH is not repeated and the four other names agree. */
  lemma {:induction false} ScrubbedAlike(o: Overrides, raw1: seq<string>, raw2: seq<string>)
    requires !Repeated(Scrubbed, raw1, "PATH") && !Repeated(Scrubbed, raw2, "PATH")
    requires AgreeOnFour(o, raw1, raw2)
    ensures Alike(Scrubbed, o, raw1, raw2)
  {
    forall key | key != "" && Passes(Scrubbed, key)
      ensures if Override(Scrubbed, o, key).Some?
              then !Repeated(Scrubbed, raw1, key) && !Repeated(Scrubbed, raw2, key)
              else AsRead(CallerValue(Scrubbed, raw1, key)) == AsRead(CallerValue(Scrubbed, raw2, key))
    {
      PathIsOverridden(o);
      assert key == "PATH" || key in {"TERM", "DISPLAY", "XAUTHORITY", "LANG"};
    }
  }

  lemma PathIsOverridden(o: Overrides)
    ensures Override(Scrubbed, o, "PATH").Some?
  {
  }

  lemma SameLookups(a: map<string, string>, b: map<string, string>)
    requires forall key :: Lookup(a, key) == Lookup(b, key)
    ensures a == b
  {
    forall key
      ensures key in a <==> key in b
      ensures key in a ==> a[key] == b[key]
    {
      assert Lookup(a, key) == Lookup(b, key);
    }
  }
}
