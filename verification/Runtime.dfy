/** One run of the program: resolve, permit, authenticate, open a session, execute, close the session. */
module Runtime {
  import opened Text
  import opened Acl
  import opened Credentials
  import opened Executables
  import opened SecureIo
  import Command
  import Environment
  import Pam
  import ShellQuoting
  import SearchPath
  import Tickets

  /** How a run ends; an exception is one of the look-up of the target or one of the command's execution. */
  datatype Ending = Refused | IdentityThrew | CommandThrew | Finished(outcome: Outcome, environ: map<string, string>)

  /** Answers of parts of the system that are not modelled. */
  datatype World = World(
    atResolve: Snapshot, destructive: bool, targetUid: Option<Uid>, targetNameValid: bool,
    openCredentials: Pam.ReturnCode, openSession: Pam.ReturnCode,
    closeSession: Pam.ReturnCode, closeCredentials: Pam.ReturnCode,
    target: Option<Command.Target>, identityThrows: bool, commandThrows: bool, rawEnv: seq<string>, k: Kernel)

  /** What the caller asks for; `attempt` leaves the rule and the target open. */
  datatype Request = Request(command: string, args: seq<string>, options: Command.Options, attempt: Attempt)

  type Resolved = Result<ExecutableInfo, FileError>

  // ---- Who may run what -----------------------------------------------------------------------

  /** The rule under which a run goes on: the first that matches this very executable, arguments and target. */
  function Grant(site: Site, rules: seq<Rule>, identity: Option<Identity>, resolved: Resolved, args: seq<string>,
                 w: World): Option<Rule>
  {
    if resolved.Err? || w.destructive || w.targetUid.None? || !w.targetNameValid then None
    else Decision(site, rules, identity, Canonicalised(site, resolved.value.policyPath, args, w.targetUid.value))
  }

  /** The first part of `Voix::execute`: find the executable, look at the target, ask the rules. */
  method Authorize(site: Site, settings: Command.Settings, rules: seq<Rule>, identity: Option<Identity>,
                   command: string, args: seq<string>, w: World)
    returns (resolved: Resolved, rule: Option<Rule>)
    ensures Resolution(w.atResolve, 0, command, Join(settings.paths, ":"), resolved)
    ensures resolved.Ok? ==> Validated(w.atResolve, 0, resolved.value)
    ensures rule == Grant(site, rules, identity, resolved, args, w)
    ensures rule.Some? ==> resolved.Ok? && w.targetUid.Some?
  {
    rule := None;
    var searchPath := SearchPath.GetPath(settings.paths);
    resolved := ResolveExecutable(w.atResolve, 0, command, searchPath);
    if resolved.Err? {
      return;
    }
    if w.destructive {
      return;
    }
    if w.targetUid.None? || !w.targetNameValid {
      return;
    }
    rule := FindPermit(site, rules, identity, resolved.value.policyPath, args, w.targetUid.value);
  }

  /** A name is looked for in the configured directories, in their order; empty entries are not searched. */
  lemma ConfiguredSearch(now: Snapshot, owner: Uid, command: string, paths: seq<string>, result: Resolved)
    requires SearchPath.ColonFree(paths) && command != "" && '/' !in command
    ensures Resolution(now, owner, command, Join(paths, ":"), result) <==>
            SearchResult(dir => CheckCandidate(now, owner, InDirectory(dir, command)),
                         SearchPath.NonEmpty(paths), result)
  {
    SearchPath.SearchedDirectories(paths);
  }

  // ---- What the command gets ------------------------------------------------------------------

  /** The caller's options as the policy has them: only a rule keeps the environment. */
  function Merged(settings: Command.Settings, rule: Rule, options: Command.Options): Command.Options {
    Command.Options(rule.keepenv, options.loginShell || settings.loginShellDefault, options.setHome)
  }

  /** The caller's `-E` is not among them. */
  lemma PreserveIsIgnored(settings: Command.Settings, rule: Rule, options: Command.Options, keep: bool)
    ensures Merged(settings, rule, options.(preserveEnv := keep)) == Merged(settings, rule, options)
  {
  }

  function TierUnder(settings: Command.Settings, rule: Rule, target: Command.Target, options: Command.Options)
    : Environment.Tier
  {
    Command.TierFor(Command.ProfileFor(settings, rule.profile, target), Merged(settings, rule, options))
  }

  function OverridesUnder(settings: Command.Settings, rule: Rule, target: Command.Target, options: Command.Options)
    : Environment.Overrides
  {
    Command.OverridesFor(settings, Merged(settings, rule, options), rule.envlist, target)
  }

  function EnvironFor(settings: Command.Settings, rule: Rule, target: Command.Target, options: Command.Options,
                      rawEnv: seq<string>): map<string, string>
  {
    Environment.Environ(TierUnder(settings, rule, target, options), OverridesUnder(settings, rule, target, options),
                        rawEnv)
  }

  /**
   * Callers that the tier of the rule and the profile cannot tell apart get the same environment, whatever
   * else they have in theirs and with `-E` or without.
   */
  lemma {:induction false} NothingElseGetsThrough(settings: Command.Settings, rule: Rule, target: Command.Target,
                                                  options: Command.Options, keep: bool, raw1: seq<string>,
                                                  raw2: seq<string>)
    requires Environment.NulFree(raw1) && Environment.NulFree(raw2) && Environment.GoodEnvlist(rule.envlist)
    requires Environment.Alike(TierUnder(settings, rule, target, options),
                               OverridesUnder(settings, rule, target, options), raw1, raw2)
    ensures EnvironFor(settings, rule, target, options, raw1) ==
            EnvironFor(settings, rule, target, options.(preserveEnv := keep), raw2)
  {
    PreserveIsIgnored(settings, rule, options, keep);
    Environment.NonInterference(TierUnder(settings, rule, target, options),
                                OverridesUnder(settings, rule, target, options), raw1, raw2);
  }

  /**
   * By default the tier is the scrubbed one: unless the administrator grants more, the values of TERM,
   * DISPLAY, XAUTHORITY and LANG are all that the caller decides, as long as no name with an override is
   * repeated.
   */
  lemma {:induction false} DefaultLetsFourThrough(settings: Command.Settings, rule: Rule, target: Command.Target,
                                                  options: Command.Options, keep: bool, raw1: seq<string>,
                                                  raw2: seq<string>)
    requires !rule.keepenv && !Command.Lifted(settings, rule.profile, target)
    requires Environment.NulFree(raw1) && Environment.NulFree(raw2) && Environment.GoodEnvlist(rule.envlist)
    requires !Environment.Repeated(Environment.Scrubbed, raw1, "PATH")
    requires !Environment.Repeated(Environment.Scrubbed, raw2, "PATH")
    requires Environment.AgreeOnFour(OverridesUnder(settings, rule, target, options), raw1, raw2)
    ensures EnvironFor(settings, rule, target, options, raw1) ==
            EnvironFor(settings, rule, target, options.(preserveEnv := keep), raw2)
  {
    Command.ConfinedByDefault(settings, rule.profile, target, Merged(settings, rule, options));
    Environment.ScrubbedAlike(OverridesUnder(settings, rule, target, options), raw1, raw2);
    NothingElseGetsThrough(settings, rule, target, options, keep, raw1, raw2);
  }

  /**
   * Whatever is granted short of the whole environment, none of the names that change how programs are loaded
   * or interpreted arrives from the caller: they are the administrator's or not there.
   */
  lemma {:induction false} DangerousNeverArrive(settings: Command.Settings, rule: Rule, target: Command.Target,
                                                options: Command.Options, raw: seq<string>, key: string)
    requires Environment.NulFree(raw) && Environment.GoodEnvlist(rule.envlist)
    requires !Command.ProfileFor(settings, rule.profile, target).preserveFullEnvironment
    requires || key == "BASH_ENV" || key == "ENV" || key == "IFS" || key == "CDPATH" || key == "GCONV_PATH"
             || key == "GETCONF_DIR" || key == "HOSTALIASES"
             || "LD_" <= key || "CC" <= key || "CXX" <= key || "CMAKE_" <= key || "PERL" <= key
             || "PYTHON" <= key || "RUBY" <= key
    ensures Environment.Lookup(EnvironFor(settings, rule, target, options, raw), key) ==
            Environment.AsRead(Environment.LastValue(Environment.Retained(Environment.Unfiltered, rule.envlist), key))
  {
    var o := OverridesUnder(settings, rule, target, options);
    var tier := TierUnder(settings, rule, target, options);
    Environment.DangerousNames(key);
    Environment.LevelsOrdered(key);
    Environment.EnvironmentByName(tier, o, raw, key);
    Environment.NotImposed(tier, o, key);
  }

  /** `keepenv` of the rule, or a profile that does not scrub, keeps the environment; nothing the caller says does. */
  lemma TierExactly(settings: Command.Settings, rule: Rule, target: Command.Target, options: Command.Options)
    ensures var p := Command.ProfileFor(settings, rule.profile, target);
            var tier := TierUnder(settings, rule, target, options);
            && (tier == Environment.Unfiltered <==> p.preserveFullEnvironment)
            && (tier == Environment.Keepenv <==> !p.preserveFullEnvironment && (rule.keepenv || !p.scrubEnvironment))
  {
  }

  /**
   * The identity in the environment is the target's and the search path the configured one, for a name that
   * the administrator leaves alone and the caller does not repeat.
   */
  lemma {:induction false} IdentityArrives(settings: Command.Settings, rule: Rule, target: Command.Target,
                                           options: Command.Options, raw: seq<string>, key: string)
    requires Environment.NulFree(raw) && Environment.GoodEnvlist(rule.envlist)
    requires key in {"USER", "LOGNAME", "HOME", "SHELL", "PATH"}
    requires !Environment.Mentions(rule.envlist, key) && !Environment.Twice(raw, key)
    ensures var login := options.loginShell || settings.loginShellDefault;
            var found := Environment.Lookup(EnvironFor(settings, rule, target, options, raw), key);
            && (key == "USER" || key == "LOGNAME" ==> found == Some(CStr(target.username)))
            && (key == "HOME" && (options.setHome || login) ==> found == Some(CStr(target.homeDir)))
            && (key == "SHELL" && login ==>
                  found == Some(CStr(if target.shell == "" then "/bin/sh" else target.shell)))
            && (key == "PATH" && TierUnder(settings, rule, target, options) == Environment.Scrubbed ==>
                  found == Some(CStr(Join(settings.paths, ":"))))
  {
    var tier, o := TierUnder(settings, rule, target, options), OverridesUnder(settings, rule, target, options);
    Environment.EnvironmentByName(tier, o, raw, key);
    Environment.OverrideExactly(tier, o, key, "");
    Environment.CountExactly(raw, key);
  }

  function JobUnder(settings: Command.Settings, rule: Rule, found: ExecutableInfo, r: Request, target: Command.Target)
    : Job
  {
    Command.JobFor(0, found, r.args, Merged(settings, rule, r.options), target)
  }

  /** The run gets as far as forking a child for the command. */
  ghost predicate RunForks(settings: Command.Settings, rule: Rule, found: ExecutableInfo, r: Request, w: World) {
    !w.identityThrows && w.target.Some? && Forks(JobUnder(settings, rule, found, r, w.target.value), w.k)
  }

  /**
   * The command has the rule's environment. It is launched if and only if its file can be chosen and opened
   * as the one that was checked and no stage fails, and then it is that file.
   */
  ghost predicate RunsAsGranted(before: map<nat, Descriptor>, open: map<nat, Descriptor>, settings: Command.Settings,
                                rule: Rule, found: ExecutableInfo, r: Request, w: World, outcome: Outcome,
                                environ: map<string, string>)
    requires w.target.Some?
  {
    var target := w.target.value;
    var job := JobUnder(settings, rule, found, r, target);
    var restricted := Command.Restricted(settings, rule.profile, target);
    && environ == EnvironFor(settings, rule, target, r.options, w.rawEnv)
    && (outcome.Launched? <==> Launches(job, w.k, restricted))
    && (outcome.Launched? ==> Delivered(before, open, job, w.k, restricted, outcome))
  }

  // ---- What is said to PAM --------------------------------------------------------------------

  /** The attempt passes and a session is opened for it. */
  predicate Enters(files: Tickets.Directory, a: Attempt, w: World) {
    Passes(files, a) && w.openCredentials == Pam.PAM_SUCCESS && w.openSession == Pam.PAM_SUCCESS
  }

  /** The calls for the session once the attempt has passed, up to the open session. */
  function OpeningPart(passes: bool, h: nat, w: World): seq<Pam.Call> {
    if passes then Opening(Some(h), w.openCredentials, w.openSession) else []
  }

  /** What happens in the session, to its end. */
  function InsidePart(enters: bool, forks: bool, h: nat, w: World): seq<Pam.Call> {
    if !enters then []
    else (if forks then [Pam.Forked(h)] else []) + Closing(Some(h), w.closeSession, w.closeCredentials)
  }

  /** From the grant to the open session, on handle `h`. */
  function Entry(files: Tickets.Directory, left: Option<nat>, h: nat, a: Attempt, w: World): seq<Pam.Call> {
    Said(files, left, h, a) + OpeningPart(Passes(files, a), h, w)
  }

  /** All that is recorded of a run once a rule is found. */
  function Conversation(files: Tickets.Directory, left: Option<nat>, h: nat, a: Attempt, w: World, forks: bool)
    : seq<Pam.Call>
  {
    Entry(files, left, h, a, w) + InsidePart(Enters(files, a, w), forks, h, w)
  }

  /**
   * No session, or one that was refused, or one that was opened and then closed on the same handle, once
   * each, and the command forked in between if at all.
   */
  predicate Paired(said: seq<Pam.Call>) {
    var calls := Pam.SessionCalls(said);
    || calls == []
    || (|calls| == 1 && calls[0].OpenSession? && calls[0].rc != Pam.PAM_SUCCESS)
    || (2 <= |calls| <= 3
        && calls[0].OpenSession? && calls[0].rc == Pam.PAM_SUCCESS
        && (|calls| == 3 ==> calls[1] == Pam.Forked(calls[0].h))
        && calls[|calls| - 1].CloseSession? && calls[|calls| - 1].h == calls[0].h)
  }

  /** The calls for a session among those of a run. */
  function SessionOf(passes: bool, enters: bool, forks: bool, h: nat, w: World): seq<Pam.Call> {
    if enters then
      [Pam.Call.OpenSession(h, w.openSession)] + (if forks then [Pam.Forked(h)] else [])
      + [Pam.Call.CloseSession(h, w.closeSession)]
    else if passes && w.openCredentials == Pam.PAM_SUCCESS then [Pam.Call.OpenSession(h, w.openSession)]
    else []
  }

  lemma SessionParts(passes: bool, enters: bool, forks: bool, h: nat, w: World)
    requires enters <==> passes && w.openCredentials == Pam.PAM_SUCCESS && w.openSession == Pam.PAM_SUCCESS
    ensures Pam.Prompts(OpeningPart(passes, h, w)) == Pam.Prompts(InsidePart(enters, forks, h, w)) == 0
    ensures Pam.SessionCalls(OpeningPart(passes, h, w)) + Pam.SessionCalls(InsidePart(enters, forks, h, w)) ==
            SessionOf(passes, enters, forks, h, w)
  {
    SessionPart(h, w.openCredentials, w.openSession);
    SessionPart(h, w.closeCredentials, w.closeSession);
    Pam.Joined(if forks then [Pam.Forked(h)] else [], Closing(Some(h), w.closeSession, w.closeCredentials));
    ForkAlone(h);
  }

  lemma SessionIsPaired(said: seq<Pam.Call>, passes: bool, enters: bool, forks: bool, h: nat, w: World)
    requires Pam.SessionCalls(said) == SessionOf(passes, enters, forks, h, w)
    requires enters <==> passes && w.openCredentials == Pam.PAM_SUCCESS && w.openSession == Pam.PAM_SUCCESS
    ensures Paired(said)
  {
  }

  lemma ForkAlone(h: nat)
    ensures Pam.Prompts([Pam.Forked(h)]) == 0 && Pam.SessionCalls([Pam.Forked(h)]) == [Pam.Forked(h)]
  {
    assert [Pam.Forked(h)][1..] == [];
  }

  /**
   * A session that was opened is closed exactly once and after it was opened, on the same handle; the command
   * is forked between the two, once at most, and never without a session; one that was not opened is not
   * closed; and the password is asked for once if at all.
   */
  lemma {:induction false} ConversationCalls(files: Tickets.Directory, left: Option<nat>, h: nat, a: Attempt, w: World,
                                             forks: bool)
    ensures var said := Conversation(files, left, h, a, w, forks);
            && Pam.Prompts(said) == (if Prompts(files, a) then 1 else 0)
            && Pam.SessionCalls(said) == SessionOf(Passes(files, a), Enters(files, a, w), forks, h, w)
  {
    var passes, enters := Passes(files, a), Enters(files, a, w);
    SaidCalls(files, left, h, a);
    SessionParts(passes, enters, forks, h, w);
    Pam.JoinedThree(Said(files, left, h, a), OpeningPart(passes, h, w), InsidePart(enters, forks, h, w));
    var opening := Pam.SessionCalls(OpeningPart(passes, h, w));
    assert [] + opening == opening;
  }

  /**
   * All of it for a run that has a session: the proof if one is due, then both accounts on handles of their
   * own, then credentials and session, and only then the command.
   */
  lemma {:induction false} WholeConversation(files: Tickets.Directory, left: Option<nat>, h: nat, a: Attempt, w: World,
                                             forks: bool)
    requires Enters(files, a, w)
    ensures var ok := Pam.PAM_SUCCESS;
            var proof := if Prompts(files, a) then [Pam.Call.Authenticate(h, ok)] else [];
            Conversation(files, left, h, a, w, forks) ==
            ((if left.Some? then [Pam.End(left.value)] else []) + [Pam.Start(h)] + proof + [Pam.Account(h, ok)]
             + [Pam.Start(h + 1), Pam.Account(h + 1, ok), Pam.End(h + 1)])
            + [Pam.Credentials(h, true, ok), Pam.Call.OpenSession(h, ok)]
            + ((if forks then [Pam.Forked(h)] else [])
               + [Pam.Call.CloseSession(h, w.closeSession), Pam.Credentials(h, false, w.closeCredentials), Pam.End(h)])
  {
    PassingChecksAccounts(files, left, h, a);
  }

  /** The attempt of a request under a rule. */
  function AttemptUnder(rule: Rule, r: Request, w: World): Attempt {
    r.attempt.(rule := Some(rule), target := w.targetUid)
  }

  /**
   * A run has a session if and only if the caller has an excuse under the very rule that was granted, or gave a
   * proof, and PAM has no objection to the caller, the target, the credentials and the session.
   */
  lemma EntersExactly(files: Tickets.Directory, rule: Rule, r: Request, w: World)
    requires w.targetUid.Some?
    ensures var a, ok := r.attempt, Pam.PAM_SUCCESS;
            Enters(files, AttemptUnder(rule, r, w), w) <==>
            && a.start == ok && a.account == ok && a.targetStart == ok && a.targetAccount == ok
            && w.openCredentials == ok && w.openSession == ok
            && (|| rule.nopass || a.callerName == "root"
                || (rule.persist && Tickets.HasTicket(files, a.caller, w.targetUid.value, a.readNow, a.readPlan, 15))
                || (!a.nonInteractive && a.auth == ok))
  {
    WhoMustProve(files, AttemptUnder(rule, r, w));
  }

  /** And it changes a ticket only under a rule that lets a proof be remembered, after a proof. */
  lemma ChangesTicketsExactly(files: Tickets.Directory, rule: Rule, r: Request, w: World)
    requires w.targetUid.Some? && AfterAttempt(files, AttemptUnder(rule, r, w)) != files
    ensures rule.persist && !rule.nopass && r.attempt.callerName != "root" && !r.attempt.nonInteractive
    ensures r.attempt.auth == Pam.PAM_SUCCESS
  {
    WhoMustProve(files, AttemptUnder(rule, r, w));
  }

  /** `authenticate` and `openSession`, as `Voix::execute` calls them. */
  method Enter(auth: PamAuthenticator, a: Attempt, w: World) returns (inside: bool)
    requires auth.Valid() && auth.pam.sessions == {}
    modifies auth, auth.pam, auth.tickets
    ensures auth.Valid()
    ensures inside <==> Enters(old(auth.tickets.files), a, w)
    ensures auth.tickets.files == AfterAttempt(old(auth.tickets.files), a)
    ensures auth.pamh == if Passes(old(auth.tickets.files), a) then Some(old(auth.pam.issued))
                         else if Silent(old(auth.tickets.files), a) then old(auth.pamh) else None
    ensures auth.pam.sessions == if inside then {old(auth.pam.issued)} else {}
    ensures auth.pam.calls ==
            old(auth.pam.calls) + Entry(old(auth.tickets.files), old(auth.pamh), old(auth.pam.issued), a, w)
  {
    ghost var before := auth.pam.calls;
    ghost var said := Said(auth.tickets.files, auth.pamh, auth.pam.issued, a);
    ghost var h := Some(auth.pam.issued);
    inside := auth.Authenticate(a);
    if inside {
      Pam.Append(before, said, Opening(h, w.openCredentials, w.openSession));
      inside := auth.OpenSession(w.openCredentials, w.openSession);
    }
  }

  // ---- A run ----------------------------------------------------------------------------------

  /** The call of `Command::execute`. */
  method StartCommand(auth: PamAuthenticator, table: Descriptors, settings: Command.Settings, rule: Rule,
                      found: ExecutableInfo, r: Request, w: World)
    returns (outcome: Outcome, environ: map<string, string>)
    requires auth.Valid() && auth.pamh.Some? && auth.pam.sessions == {auth.pamh.value}
    requires w.target.Some? && !w.identityThrows && w.k.fd !in table.open
    modifies auth.pam, table
    ensures auth.Valid() && auth.pam.sessions == old(auth.pam.sessions)
    ensures auth.pam.calls == old(auth.pam.calls) + if RunForks(settings, rule, found, r, w)
                                                    then [Pam.Forked(auth.pamh.value)] else []
    ensures RunsAsGranted(old(table.open), table.open, settings, rule, found, r, w, outcome, environ)
    ensures !RunForks(settings, rule, found, r, w) ==> table.open == old(table.open)
  {
    outcome, environ :=
      Command.Execute(auth.pam, auth.pamh.value, table, 0, settings, rule.profile, rule.envlist, w.target.value,
                      Merged(settings, rule, r.options), found, r.args, w.rawEnv, w.k);
  }

  /** How a run ends that has a session: only the world decides. */
  predicate EndsAs(ending: Ending, w: World) {
    if w.identityThrows then ending.IdentityThrew?
    else if w.target.None? then ending.Refused?
    else if w.commandThrows then ending.CommandThrew?
    else ending.Finished?
  }

  /**
   * The part of `Voix::execute` after the session was opened. An exception leaves by the destructor that
   * closes it.
   */
  method RunSession(auth: PamAuthenticator, table: Descriptors, settings: Command.Settings, rule: Rule,
                    found: ExecutableInfo, r: Request, w: World)
    returns (ending: Ending)
    requires auth.Valid() && auth.pamh.Some? && auth.pam.sessions == {auth.pamh.value}
    requires w.k.fd !in table.open
    modifies auth, auth.pam, table
    ensures auth.Valid() && auth.pamh.None? && auth.pam.sessions == {}
    ensures auth.pam.calls == old(auth.pam.calls)
                              + InsidePart(true, RunForks(settings, rule, found, r, w), old(auth.pamh).value, w)
    ensures EndsAs(ending, w)
    ensures ending.Finished? ==>
              RunsAsGranted(old(table.open), table.open, settings, rule, found, r, w, ending.outcome, ending.environ)
    ensures !RunForks(settings, rule, found, r, w) ==> table.open == old(table.open)
  {
    ghost var fork := if RunForks(settings, rule, found, r, w) then [Pam.Forked(auth.pamh.value)] else [];
    Pam.Append(auth.pam.calls, fork, Closing(auth.pamh, w.closeSession, w.closeCredentials));
    if w.identityThrows {
      ending := IdentityThrew;
    } else if w.target.None? {
      ending := Refused;
    } else {
      var outcome, environ := StartCommand(auth, table, settings, rule, found, r, w);
      ending := if w.commandThrows then CommandThrew else Finished(outcome, environ);
    }
    auth.CloseSession(w.closeSession, w.closeCredentials);
  }

  /** What others see of a run: the tickets, and the calls to PAM and forks in order. */
  datatype Trace = Trace(files: Tickets.Directory, calls: seq<Pam.Call>)

  /**
   * Without a rule nothing is said, written or run. With one the caller authenticates under it, the session
   * is opened and closed and the command forked as the conversation says, and only with a session can the
   * run end in anything but a refusal.
   */
  ghost predicate Conducted(rule: Option<Rule>, before: Trace, after: Trace, left: Option<nat>, h: nat,
                            settings: Command.Settings, resolved: Resolved, r: Request, w: World, ending: Ending)
  {
    match rule
    case None => ending.Refused? && after == before
    case Some(granted) =>
      var a := AttemptUnder(granted, r, w);
      && resolved.Ok?
      && after.files == AfterAttempt(before.files, a)
      && after.calls == before.calls + Conversation(before.files, left, h, a, w,
                                                    RunForks(settings, granted, resolved.value, r, w))
      && if Enters(before.files, a, w) then EndsAs(ending, w) else ending.Refused?
  }

  /** The handle that is left when the run is over, for the destructor to end. */
  function HandleLeft(rule: Option<Rule>, files: Tickets.Directory, left: Option<nat>, h: nat, r: Request, w: World)
    : Option<nat>
  {
    match rule
    case None => left
    case Some(granted) =>
      var a := AttemptUnder(granted, r, w);
      if Enters(files, a, w) then None
      else if Passes(files, a) then Some(h)
      else if Silent(files, a) then left
      else None
  }

  /** A run that ends normally ran the command as the rule grants it; one that forked nothing kept the descriptors. */
  ghost predicate Carried(rule: Option<Rule>, before: map<nat, Descriptor>, open: map<nat, Descriptor>,
                          settings: Command.Settings, resolved: Resolved, r: Request, w: World, ending: Ending)
  {
    && (rule.None? || resolved.Err? || ending.Refused? || !RunForks(settings, rule.value, resolved.value, r, w) ==>
          open == before)
    && (ending.Finished? ==>
          && rule.Some? && resolved.Ok? && w.target.Some?
          && RunsAsGranted(before, open, settings, rule.value, resolved.value, r, w, ending.outcome, ending.environ))
  }

  /** `Voix::execute` from the answer of the rules on. */
  method Proceed(auth: PamAuthenticator, table: Descriptors, settings: Command.Settings, rule: Option<Rule>,
                 resolved: Resolved, r: Request, w: World)
    returns (ending: Ending)
    requires auth.Valid() && auth.pam.sessions == {}
    requires w.k.fd !in table.open && (rule.Some? ==> resolved.Ok?)
    modifies auth, auth.pam, auth.tickets, table
    ensures auth.Valid() && auth.pam.sessions == {}
    ensures auth.pamh == HandleLeft(rule, old(auth.tickets.files), old(auth.pamh), old(auth.pam.issued), r, w)
    ensures Conducted(rule, old(Trace(auth.tickets.files, auth.pam.calls)), Trace(auth.tickets.files, auth.pam.calls),
                      old(auth.pamh), old(auth.pam.issued), settings, resolved, r, w, ending)
    ensures Carried(rule, old(table.open), table.open, settings, resolved, r, w, ending)
  {
    ending := Refused;
    if rule.None? {
      return;
    }
    var a := AttemptUnder(rule.value, r, w);
    ghost var before, h := auth.pam.calls, auth.pam.issued;
    ghost var entry := Entry(auth.tickets.files, auth.pamh, h, a, w);
    var inside := Enter(auth, a, w);
    Pam.Append(before, entry, InsidePart(inside, RunForks(settings, rule.value, resolved.value, r, w), h, w));
    if inside {
      ending := RunSession(auth, table, settings, rule.value, resolved.value, r, w);
    }
  }

  /**
   * The whole account of a run: the executable was found and checked before anything else, and the rest
   * follows from the rule for this very executable, arguments and target.
   */
  ghost predicate ByPolicy(site: Site, settings: Command.Settings, rules: seq<Rule>, identity: Option<Identity>,
                           resolved: Resolved, r: Request, w: World, before: Trace, after: Trace, left: Option<nat>,
                          h: nat, inherited: map<nat, Descriptor>, open: map<nat, Descriptor>, pamh: Option<nat>,
                          ending: Ending)
  {
    var rule := Grant(site, rules, identity, resolved, r.args, w);
    && Resolution(w.atResolve, 0, r.command, Join(settings.paths, ":"), resolved)
    && (resolved.Ok? ==> Validated(w.atResolve, 0, resolved.value))
    && pamh == HandleLeft(rule, before.files, left, h, r, w)
    && Conducted(rule, before, after, left, h, settings, resolved, r, w, ending)
    && Carried(rule, inherited, open, settings, resolved, r, w, ending)
  }

  /** A run is refused before anything is said, written or run if it is destructive or aims at nobody. */
  lemma RefusedBeforehand(site: Site, settings: Command.Settings, rules: seq<Rule>, identity: Option<Identity>,
                          resolved: Resolved, r: Request, w: World, before: Trace, after: Trace, left: Option<nat>,
                          h: nat, inherited: map<nat, Descriptor>, open: map<nat, Descriptor>, pamh: Option<nat>,
                          ending: Ending)
    requires ByPolicy(site, settings, rules, identity, resolved, r, w, before, after, left, h, inherited, open, pamh,
                      ending)
    requires w.destructive || w.targetUid.None? || !w.targetNameValid || resolved.Err? || identity.None?
    ensures ending.Refused? && after == before && open == inherited && pamh == left
  {
  }

  /** What the kernel runs without a login shell: the file that was found, under its path, with the arguments given. */
  ghost predicate RunsItself(found: ExecutableInfo, r: Request, w: World, open: map<nat, Descriptor>, outcome: Outcome)
    requires outcome.Launched?
  {
    var file := w.k.atOpen.openNoFollow(found.path);
    && file.Ok? && file.value == Stat(found.id, true, 0, false, true)
    && outcome.fd in open && open[outcome.fd] == Descriptor(found.id, false)
    && outcome.argv == [found.policyPath] + r.args
  }

  /** With a login shell: the shell, on a line that it reads as that path and those arguments. */
  ghost predicate RunsInShell(found: ExecutableInfo, r: Request, w: World, open: map<nat, Descriptor>, outcome: Outcome)
    requires outcome.Launched? && w.target.Some?
  {
    var shell := if w.target.value.shell == "" then "/bin/sh" else w.target.value.shell;
    var path := w.k.atShell.absolute(shell);
    && path.Some? && w.k.atShell.realpath(path.value).Ok?
    && var file := w.k.atOpen.openNoFollow(w.k.atShell.realpath(path.value).value);
    && file.Ok? && file.value == Stat(file.value.id, true, 0, false, true)
    && outcome.fd in open && open[outcome.fd] == Descriptor(file.value.id, false)
    && |outcome.argv| == 3 && outcome.argv[1] == "-c"
    && (ShellQuoting.NulFree([found.policyPath] + r.args) ==>
          ShellQuoting.Tokenize(CStr(outcome.argv[2])) == Some([found.policyPath] + r.args))
  }

  /**
   * A command that runs was found as a fit file of root's, was granted by the first rule that is for this
   * caller, command, arguments and target, and is executed as that very file, or by the target's shell if the
   * caller or the configuration asks for one.
   */
  lemma {:induction false} RunMeans(site: Site, settings: Command.Settings, rules: seq<Rule>,
                                    identity: Option<Identity>, resolved: Resolved, r: Request, w: World,
                                    before: Trace, after: Trace, left: Option<nat>, h: nat,
                                    inherited: map<nat, Descriptor>, open: map<nat, Descriptor>, pamh: Option<nat>,
                                    ending: Ending)
    returns (rule: Rule)
    requires ByPolicy(site, settings, rules, identity, resolved, r, w, before, after, left, h, inherited, open, pamh,
                      ending)
    requires Runs(ending)
    ensures resolved.Ok? && identity.Some? && w.targetUid.Some? && w.target.Some? && !w.destructive
    ensures var st := w.atResolve.stat(resolved.value.path);
            st.Ok? && st.value == Stat(resolved.value.id, true, 0, false, true)
    ensures var req := Canonicalised(site, resolved.value.policyPath, r.args, w.targetUid.value);
            Decision(site, rules, identity, req) == Some(rule) && Fits(site, rule, identity.value, req)
    ensures if r.options.loginShell || settings.loginShellDefault
            then RunsInShell(resolved.value, r, w, open, ending.outcome)
            else RunsItself(resolved.value, r, w, open, ending.outcome)
  {
    rule := Grant(site, rules, identity, resolved, r.args, w).value;
    var req := Canonicalised(site, resolved.value.policyPath, r.args, w.targetUid.value);
    DecidingRuleFits(site, rules, identity, req, rule);
    LaunchedIsFit(JobUnder(settings, rule, resolved.value, r, w.target.value), w.k,
                  Command.Restricted(settings, rule.profile, w.target.value));
  }

  /** `Voix::execute`. */
  method Execute(auth: PamAuthenticator, table: Descriptors, site: Site, settings: Command.Settings, rules: seq<Rule>,
                 identity: Option<Identity>, r: Request, w: World)
    returns (ending: Ending, ghost resolved: Resolved)
    requires auth.Valid() && auth.pam.sessions == {}
    requires w.k.fd !in table.open
    modifies auth, auth.pam, auth.tickets, table
    ensures auth.Valid() && auth.pam.sessions == {}
    ensures ByPolicy(site, settings, rules, identity, resolved, r, w, old(Trace(auth.tickets.files, auth.pam.calls)),
                     Trace(auth.tickets.files, auth.pam.calls), old(auth.pamh), old(auth.pam.issued), old(table.open),
                     table.open, auth.pamh, ending)
  {
    var executable, rule := Authorize(site, settings, rules, identity, r.command, r.args, w);
    resolved := executable;
    ending := Proceed(auth, table, settings, rule, executable, r, w);
  }

  /** The command is launched. */
  predicate Runs(ending: Ending) {
    ending.Finished? && ending.outcome.Launched?
  }

  /** A password is asked for once at most, sessions are paired, and a command that ran was forked in one. */
  predicate Proper(said: seq<Pam.Call>, ending: Ending) {
    && Paired(said) && Pam.Prompts(said) <= 1
    && (Runs(ending) ==> |Pam.SessionCalls(said)| == 3)
  }

  /** Every run that is conducted and carried out as above is proper, and so is the process it is in. */
  lemma ConductedIsProper(rule: Option<Rule>, before: Trace, after: Trace, h: nat, open: map<nat, Descriptor>,
                          open': map<nat, Descriptor>, settings: Command.Settings, resolved: Resolved, r: Request,
                          w: World, ending: Ending)
    requires before.calls == [] && Conducted(rule, before, after, None, h, settings, resolved, r, w, ending)
    requires Carried(rule, open, open', settings, resolved, r, w, ending)
    ensures Proper(after.calls, ending)
  {
    if rule.Some? {
      var a, forks := AttemptUnder(rule.value, r, w), RunForks(settings, rule.value, resolved.value, r, w);
      ConversationCalls(before.files, None, h, a, w, forks);
      assert after.calls == before.calls + Conversation(before.files, None, h, a, w, forks);
      assert after.calls == Conversation(before.files, None, h, a, w, forks);
      SessionIsPaired(after.calls, Passes(before.files, a), Enters(before.files, a, w), forks, h, w);
    }
  }

  /** The destructor's part. */
  function Ended(pamh: Option<nat>): seq<Pam.Call> {
    if pamh.Some? then [Pam.End(pamh.value)] else []
  }

  lemma EndIsProper(said: seq<Pam.Call>, ending: Ending, pamh: Option<nat>)
    requires Proper(said, ending)
    ensures Proper(said + Ended(pamh), ending)
  {
    Pam.Joined(said, Ended(pamh));
  }

  /**
   * A whole process, from the construction of the authenticator to its destruction: a run on the tickets
   * that `-k` left if it was given, and after it the end of a handle that was left. No handle and no session
   * outlives it.
   */
  method Lifetime(pam: Pam.Library, tickets: Tickets.TicketStore, table: Descriptors, site: Site,
                  settings: Command.Settings, rules: seq<Rule>, identity: Option<Identity>, clearFirst: bool,
                  isDirectory: bool, stuck: set<string>, r: Request, w: World)
    returns (ending: Ending, ghost resolved: Resolved, ghost said: seq<Pam.Call>, ghost pamh: Option<nat>)
    requires pam.Valid() && pam.calls == [] && pam.live == {} && pam.sessions == {} && w.k.fd !in table.open
    modifies pam, tickets, table
    ensures pam.live == {} && pam.sessions == {}
    ensures var files := FilesAtStart(old(tickets.files), r.attempt.caller, clearFirst, isDirectory, stuck);
            ByPolicy(site, settings, rules, identity, resolved, r, w, Trace(files, []), Trace(tickets.files, said),
                     None, old(pam.issued), old(table.open), table.open, pamh, ending)
    ensures pam.calls == said + Ended(pamh) && Proper(pam.calls, ending)
  {
    var auth := new PamAuthenticator(pam, tickets);
    if clearFirst {
      auth.ClearTimestamp(r.attempt.caller, isDirectory, stuck);
    }
    ghost var before, h, inherited := Trace(tickets.files, pam.calls), pam.issued, table.open;
    ending, resolved := Execute(auth, table, site, settings, rules, identity, r, w);
    said, pamh := pam.calls, auth.pamh;
    ByPolicyIsProper(site, settings, rules, identity, resolved, r, w, before, Trace(tickets.files, said), h, inherited,
                     table.open, pamh, ending);
    auth.Destroy();
  }

  lemma ByPolicyIsProper(site: Site, settings: Command.Settings, rules: seq<Rule>, identity: Option<Identity>,
                         resolved: Resolved, r: Request, w: World, before: Trace, after: Trace, h: nat,
                         inherited: map<nat, Descriptor>, open: map<nat, Descriptor>, pamh: Option<nat>, ending: Ending)
    requires before.calls == []
    requires ByPolicy(site, settings, rules, identity, resolved, r, w, before, after, None, h, inherited, open, pamh,
                      ending)
    ensures Proper(after.calls + Ended(pamh), ending)
  {
    var rule := Grant(site, rules, identity, resolved, r.args, w);
    ConductedIsProper(rule, before, after, h, inherited, open, settings, resolved, r, w, ending);
    EndIsProper(after.calls, ending, pamh);
  }

  /** The tickets a run starts with: without the caller's if `-k` was given. */
  function FilesAtStart(files: Tickets.Directory, caller: Uid, clearFirst: bool, isDirectory: bool, stuck: set<string>)
    : Tickets.Directory
  {
    if clearFirst then Tickets.WithoutCaller(files, caller, isDirectory, stuck) else files
  }

  /** After `-k` no ticket of the caller is left to use, and those of others are as they were. */
  lemma ClearedAtStart(files: Tickets.Directory, c: Uid, caller: Uid, target: Uid)
    ensures var name := Tickets.Name(caller, target);
            && Tickets.Lookup(FilesAtStart(files, c, true, true, {}), name) ==
               (if c == caller then None else Tickets.Lookup(files, name))
            && FilesAtStart(files, c, false, true, {}) == files
  {
    Tickets.ClearAllIsExact(files, c, true, {}, caller, target);
  }
}
