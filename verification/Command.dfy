/** The profile a command runs under, and `Command::execute` with its environment. */
module Command {
  import opened Text
  import opened Executables
  import Environment
  import Pam
  import SearchPath

  datatype Profile = Profile(
    retainFullCapabilities: bool, enableSeccomp: bool, enableResourceLimits: bool,
    scrubEnvironment: bool, preserveFullEnvironment: bool,
    seccompMode: string, seccompAllow: seq<string>)

  datatype Settings = Settings(
    profiles: map<string, Profile>, unconfinedTargets: seq<string>, paths: seq<string>, loginShellDefault: bool)

  const RESTRICTED := Profile(false, true, true, true, false, "blacklist", [])

  const UNCONFINED := Profile(true, false, false, false, true, "blacklist", [])

  function GetProfile(settings: Settings, name: string): Profile {
    if name in settings.profiles then settings.profiles[name] else RESTRICTED
  }

  /** `resolve_profile`. */
  function ResolveProfile(settings: Settings, ruleProfile: string, target: string): Profile {
    var unconfined := target in settings.unconfinedTargets;
    var profile := if ruleProfile == "" && unconfined then UNCONFINED else GetProfile(settings, ruleProfile);
    if unconfined then profile.(preserveFullEnvironment := true) else profile
  }

  datatype Target = Target(username: string, homeDir: string, shell: string)

  datatype Options = Options(preserveEnv: bool, loginShell: bool, setHome: bool)

  function ProfileFor(settings: Settings, ruleProfile: string, target: Target): Profile {
    ResolveProfile(settings, ruleProfile, if target.username == "" then "root" else target.username)
  }

  function TierFor(profile: Profile, options: Options): Environment.Tier {
    Environment.TierOf(profile.preserveFullEnvironment, options.preserveEnv, profile.scrubEnvironment)
  }

  function OverridesFor(settings: Settings, options: Options, envlist: seq<string>, target: Target)
    : Environment.Overrides
  {
    Environment.Overrides(Join(settings.paths, ":"), target.username, target.homeDir, target.shell,
                          options.loginShell, options.setHome, envlist)
  }

  /** A grant of the administrator that lifts a part of the confinement. */
  predicate Lifted(settings: Settings, ruleProfile: string, target: Target) {
    || ruleProfile in settings.profiles
    || (if target.username == "" then "root" else target.username) in settings.unconfinedTargets
  }

  /**
   * Confinement is the default: without a profile of the administrator's and for a target that is not
   * declared unconfined, the descriptors are scrubbed, and so is the environment unless the rule keeps it.
   */
  lemma ConfinedByDefault(settings: Settings, ruleProfile: string, target: Target, options: Options)
    requires !Lifted(settings, ruleProfile, target)
    ensures var profile := ProfileFor(settings, ruleProfile, target);
            && !profile.retainFullCapabilities && profile.enableSeccomp && profile.enableResourceLimits
            && TierFor(profile, options) == if options.preserveEnv then Environment.Keepenv else Environment.Scrubbed
  {
  }

  /**
   * Which profile is in force: a configured one if the rule names it, full treatment for a rule without a
   * profile and an unconfined target, and the restricted one in all other cases. An unconfined target keeps
   * the whole environment in any case.
   */
  lemma ProfileExactly(settings: Settings, ruleProfile: string, target: Target)
    ensures var name := if target.username == "" then "root" else target.username;
            var unconfined := name in settings.unconfinedTargets;
            var p := ProfileFor(settings, ruleProfile, target);
            && (unconfined ==> p.preserveFullEnvironment)
            && (unconfined && ruleProfile == "" ==>
                  p.retainFullCapabilities && !p.enableSeccomp && !p.enableResourceLimits && !p.scrubEnvironment)
            && (ruleProfile in settings.profiles && !(unconfined && ruleProfile == "") ==>
                  p == if unconfined then settings.profiles[ruleProfile].(preserveFullEnvironment := true)
                       else settings.profiles[ruleProfile])
            && (ruleProfile !in settings.profiles && !(unconfined && ruleProfile == "") ==>
                  && !p.retainFullCapabilities && p.enableSeccomp && p.enableResourceLimits && p.scrubEnvironment
                  && p.preserveFullEnvironment == unconfined)
  {
  }

  /** The profile gives up capabilities, and with them what was inherited. */
  predicate Restricted(settings: Settings, ruleProfile: string, target: Target) {
    !ProfileFor(settings, ruleProfile, target).retainFullCapabilities
  }

  function JobFor(owner: Uid, command: ExecutableInfo, args: seq<string>, options: Options, target: Target): Job {
    Job(owner, command, args, options.loginShell, target.shell)
  }

  /** `Command::execute`: the profile, the environment, and the pinned file. */
  method Execute(pam: Pam.Library, session: nat, table: Descriptors, owner: Uid, settings: Settings,
                 ruleProfile: string, envlist: seq<string>, target: Target, options: Options, command: ExecutableInfo,
                 args: seq<string>, rawEnv: seq<string>, k: Kernel)
    returns (outcome: Outcome, environ: map<string, string>)
    requires pam.Valid() && session in pam.live && session in pam.sessions
    requires k.fd !in table.open
    modifies pam, table
    ensures pam.Valid() && pam.live == old(pam.live) && pam.sessions == old(pam.sessions)
    ensures pam.issued == old(pam.issued)
    ensures environ == Environment.Environ(TierFor(ProfileFor(settings, ruleProfile, target), options),
                                           OverridesFor(settings, options, envlist, target), rawEnv)
    ensures var job, restricted := JobFor(owner, command, args, options, target),
                                   Restricted(settings, ruleProfile, target);
            && pam.calls == old(pam.calls) + (if Forks(job, k) then [Pam.Forked(session)] else [])
            && (outcome.Launched? <==> Launches(job, k, restricted))
            && (outcome.Launched? ==> Delivered(old(table.open), table.open, job, k, restricted, outcome))
            && (!Forks(job, k) ==> table.open == old(table.open))
  {
    var profile := ProfileFor(settings, ruleProfile, target);
    var saved := Environment.SanitizeEnvironment(profile.preserveFullEnvironment, options.preserveEnv,
                                                 profile.scrubEnvironment, rawEnv);
    var searchPath := SearchPath.GetPath(settings.paths);
    var overrides := Environment.Overrides(searchPath, target.username, target.homeDir, target.shell,
                                           options.loginShell, options.setHome, envlist);
    environ := Environment.ApplyEnvironment(TierFor(profile, options), overrides, saved);
    outcome := Executables.Execute(pam, session, table, JobFor(owner, command, args, options, target), k,
                                   !profile.retainFullCapabilities);
  }
}
