/** Finding the executable to run, opening exactly that file, and handing its descriptor to `fexecve`. */
module Executables {
  import opened Text
  import opened SecureIo
  import opened SearchPath
  import Pam
  import ShellQuoting

  /** A file's identity: device and inode. */
  datatype FileId = FileId(device: nat, inode: nat)

  datatype Stat = Stat(id: FileId, regular: bool, owner: Uid, othersMayWrite: bool, executable: bool)

  /** What the kernel answers about paths at one moment; others may change all of it by the next moment. */
  datatype Snapshot = Snapshot(
    absolute: string -> Option<string>,
    realpath: string -> Result<string, Errno>,
    stat: string -> Result<Stat, Errno>,
    openNoFollow: string -> Result<Stat, Errno>,
    policyPath: string -> string)

  datatype ExecutableInfo = ExecutableInfo(path: string, policyPath: string, id: FileId)

  /** A regular file of the right owner that nobody else may write and somebody may execute. */
  predicate Runnable(st: Stat, owner: Uid) {
    st.regular && st.owner == owner && !st.othersMayWrite && st.executable
  }

  /** The file is regular, of the owner and of this identity, others may not write it and somebody may execute it. */
  predicate Fit(st: Stat, owner: Uid, id: FileId) {
    st == Stat(id, true, owner, false, true)
  }

  /** The checks on one candidate. */
  function CheckCandidate(now: Snapshot, owner: Uid, candidate: string): Result<ExecutableInfo, FileError> {
    match now.realpath(candidate)
    case Err(e) => Err(ErrnoToFileError(e, NotFound))
    case Ok(path) =>
      match now.stat(path)
      case Err(e) => Err(ErrnoToFileError(e, ReadError))
      case Ok(st) =>
        if Runnable(st, owner) then Ok(ExecutableInfo(path, now.policyPath(candidate), st.id))
        else Err(PermissionDenied)
  }

  /** The path of a name in a directory. */
  function InDirectory(dir: string, name: string): string {
    if dir != "" && dir[|dir| - 1] == '/' then dir + name else dir + "/" + name
  }

  type Check = string -> Result<ExecutableInfo, FileError>

  /** The first failure that is more than not finding anything. */
  function FirstRealError(check: Check, dirs: seq<string>): Option<FileError> {
    if dirs == [] then None
    else if check(dirs[0]).Err? && check(dirs[0]).error != NotFound then Some(check(dirs[0]).error)
    else FirstRealError(check, dirs[1..])
  }

  /** The result of a search is the earliest directory that passes, or the first real error if none does. */
  ghost predicate SearchResult(check: Check, dirs: seq<string>, result: Result<ExecutableInfo, FileError>) {
    match result
    case Ok(info) =>
      exists i | 0 <= i < |dirs| :: check(dirs[i]) == Ok(info) && forall j | 0 <= j < i :: check(dirs[j]).Err?
    case Err(e) =>
      && (forall i | 0 <= i < |dirs| :: check(dirs[i]).Err?)
      && e == (var first := FirstRealError(check, dirs); if first.Some? then first.value else NotFound)
  }

  /** The result belongs to a file that passed the checks under the path it is known by. */
  ghost predicate Validated(now: Snapshot, owner: Uid, info: ExecutableInfo) {
    && now.stat(info.path).Ok?
    && now.stat(info.path).value.id == info.id
    && Runnable(now.stat(info.path).value, owner)
  }

  /** Opening the path gives that very file, still fit to be executed. */
  ghost predicate OpensAs(now: Snapshot, owner: Uid, info: ExecutableInfo) {
    var file := now.openNoFollow(info.path);
    file.Ok? && file.value.id == info.id && Runnable(file.value, owner)
  }

  /** Why opening failed: what `open` says, or the status was not to be had, or it is no longer the file. */
  function OpenError(now: Snapshot, info: ExecutableInfo, statFails: bool): FileError {
    var file := now.openNoFollow(info.path);
    if file.Err? then ErrnoToFileError(file.error, ReadError)
    else if statFails then ReadError
    else PermissionDenied
  }

  lemma {:induction false} FirstRealErrorSnoc(check: Check, dirs: seq<string>, dir: string)
    ensures FirstRealError(check, dirs + [dir]) ==
            if FirstRealError(check, dirs).Some? then FirstRealError(check, dirs)
            else FirstRealError(check, [dir])
  {
    if dirs == [] {
      assert [] + [dir] == [dir];
    } else {
      assert (dirs + [dir])[1..] == dirs[1..] + [dir];
      FirstRealErrorSnoc(check, dirs[1..], dir);
    }
  }

  /** What looking for a command may give: a path is checked as it is, a name in the directories of the search path. */
  ghost predicate Resolution(now: Snapshot, owner: Uid, command: string, pathEnv: string,
                             result: Result<ExecutableInfo, FileError>)
  {
    if command == "" then result == Err(NotFound)
    else if '/' in command then
      result == if now.absolute(command).None? then Err(NotFound)
                else CheckCandidate(now, owner, now.absolute(command).value)
    else
      SearchResult(dir => CheckCandidate(now, owner, InDirectory(dir, command)), NonEmpty(Items(pathEnv)), result)
  }

  /** `resolve_executable`. */
  method ResolveExecutable(now: Snapshot, owner: Uid, command: string, pathEnv: string)
    returns (result: Result<ExecutableInfo, FileError>)
    ensures Resolution(now, owner, command, pathEnv, result)
    ensures result.Ok? ==> Validated(now, owner, result.value)
    ensures result.Ok? ==>
              var st := now.stat(result.value.path); st.Ok? && Fit(st.value, owner, result.value.id)
  {
    if command == "" {
      return Err(NotFound);
    }
    if '/' in command {
      var absolute := now.absolute(command);
      if absolute.None? {
        return Err(NotFound);
      }
      return CheckCandidate(now, owner, absolute.value);
    }
    var check: Check := dir => CheckCandidate(now, owner, InDirectory(dir, command));
    var dirs := SplitSearchPath(pathEnv);
    result := SearchDirectories(check, dirs);
    if result.Ok? {
      ghost var i :| 0 <= i < |dirs| && check(dirs[i]) == result;
      CandidateIsValidated(now, owner, InDirectory(dirs[i], command));
    }
  }

  /** What is said about one candidate, file by file and error by error. */
  lemma CandidateExactly(now: Snapshot, owner: Uid, candidate: string)
    ensures var r := CheckCandidate(now, owner, candidate);
            match now.realpath(candidate)
            case Err(e) => r == Err(if e == EACCES || e == EPERM || e == ELOOP then PermissionDenied else NotFound)
            case Ok(path) =>
              match now.stat(path)
              case Err(e) => r == Err(ErrnoToFileError(e, ReadError))
              case Ok(st) =>
                if st.regular && st.owner == owner && !st.othersMayWrite && st.executable
                then r == Ok(ExecutableInfo(path, now.policyPath(candidate), st.id))
                else r == Err(PermissionDenied)
  {
  }

  /** A command given by its path is refused if the file it leads to fails any of the four checks. */
  lemma UnfitIsRefused(now: Snapshot, owner: Uid, command: string, pathEnv: string, candidate: string, path: string,
                       st: Stat, result: Result<ExecutableInfo, FileError>)
    requires '/' in command && now.absolute(command) == Some(candidate)
    requires now.realpath(candidate) == Ok(path) && now.stat(path) == Ok(st)
    requires Resolution(now, owner, command, pathEnv, result)
    ensures result.Ok? <==> Fit(st, owner, st.id)
    ensures !Fit(st, owner, st.id) ==> result == Err(PermissionDenied)
  {
    CandidateExactly(now, owner, candidate);
  }

  /** The candidate for a name is that name in that directory. */
  lemma {:induction false} InDirectoryExactly(dir: string, name: string)
    requires '/' !in name
    ensures var path := InDirectory(dir, name);
            dir <= path && FileName(path) == name && |path| <= |dir| + 1 + |name|
  {
    if dir != "" && dir[|dir| - 1] == '/' {
      FileNameIs(dir[..|dir| - 1], name);
      assert dir[..|dir| - 1] + "/" + name == dir + name;
    } else {
      FileNameIs(dir, name);
    }
  }

  /** What follows the last slash. */
  lemma {:induction false} FileNameIs(dir: string, name: string)
    requires '/' !in name
    ensures FileName(dir + "/" + name) == name && FileName(name) == name
    decreases |dir|
  {
    var path := dir + "/" + name;
    if '/' in dir {
      var i := IndexOf(dir, '/').value;
      var rest := dir[i + 1..] + "/" + name;
      IndexOfUnique(dir[..i], '/', rest);
      assert path == dir[..i] + ['/'] + rest;
      assert path[i + 1..] == rest;
      FileNameIs(dir[i + 1..], name);
    } else {
      IndexOfUnique(dir, '/', name);
      assert path == dir + ['/'] + name;
      assert path[|dir| + 1..] == name;
    }
  }

  /** The error remembered is that of the earliest directory that fails for another reason than not having the file. */
  lemma {:induction false} FirstRealErrorExactly(check: Check, dirs: seq<string>, e: FileError)
    ensures FirstRealError(check, dirs) == Some(e) <==>
            && e != NotFound
            && exists i | 0 <= i < |dirs| ::
                 && check(dirs[i]) == Err(e)
                 && forall j | 0 <= j < i :: check(dirs[j]).Ok? || check(dirs[j]).error == NotFound
  {
    if dirs != [] {
      var rest := dirs[1..];
      FirstRealErrorExactly(check, rest, e);
      assert forall i | 0 <= i < |rest| :: rest[i] == dirs[i + 1];
      if FirstRealError(check, rest) == Some(e) && (check(dirs[0]).Ok? || check(dirs[0]).error == NotFound) {
        var i :| 0 <= i < |rest| && check(rest[i]) == Err(e)
                 && forall j | 0 <= j < i :: check(rest[j]).Ok? || check(rest[j]).error == NotFound;
        assert check(dirs[i + 1]) == Err(e);
      }
      if i :| 0 < i < |dirs| && check(dirs[i]) == Err(e)
              && forall j | 0 <= j < i :: check(dirs[j]).Ok? || check(dirs[j]).error == NotFound {
        assert check(rest[i - 1]) == Err(e);
      }
    }
  }

  lemma CandidateIsValidated(now: Snapshot, owner: Uid, candidate: string)
    ensures var r := CheckCandidate(now, owner, candidate); r.Ok? ==> Validated(now, owner, r.value)
  {
  }

  /** `std::getline` with a colon as the delimiter, again and again; empty items are not searched. */
  method SplitSearchPath(pathEnv: string) returns (dirs: seq<string>)
    ensures dirs == NonEmpty(Items(pathEnv))
  {
    dirs := [];
    var rest := pathEnv;
    while rest != ""
      invariant dirs + NonEmpty(Items(rest)) == NonEmpty(Items(pathEnv))
      decreases |rest|
    {
      var colon := IndexOf(rest, ':');
      var item := if colon.Some? then rest[..colon.value] else rest;
      var after := if colon.Some? then rest[colon.value + 1..] else "";
      NextItem(dirs, rest, item, after);
      if item != "" {
        dirs := dirs + [item];
      }
      rest := after;
    }
    assert dirs + [] == dirs;
  }

  lemma NextItem(dirs: seq<string>, rest: string, item: string, after: string)
    requires rest != ""
    requires var colon := IndexOf(rest, ':');
             if colon.Some? then item == rest[..colon.value] && after == rest[colon.value + 1..]
             else item == rest && after == ""
    ensures dirs + NonEmpty(Items(rest)) == (if item == "" then dirs else dirs + [item]) + NonEmpty(Items(after))
  {
    ItemsStep(rest, item, after);
    NonEmptyCons(dirs, item, Items(after));
  }

  /** The search for a bare name: stop at the first directory that passes, remember the first real error. */
  method SearchDirectories(check: Check, dirs: seq<string>) returns (result: Result<ExecutableInfo, FileError>)
    ensures SearchResult(check, dirs, result)
  {
    var firstError: Option<FileError> := None;
    for i := 0 to |dirs|
      invariant forall j | 0 <= j < i :: check(dirs[j]).Err?
      invariant firstError == FirstRealError(check, dirs[..i])
    {
      var candidate := check(dirs[i]);
      if candidate.Ok? {
        return candidate;
      }
      FirstRealErrorSnoc(check, dirs[..i], dirs[i]);
      assert dirs[..i + 1] == dirs[..i] + [dirs[i]];
      if candidate.error != NotFound && firstError.None? {
        firstError := Some(candidate.error);
      }
    }
    assert dirs[..|dirs|] == dirs;
    return Err(if firstError.Some? then firstError.value else NotFound);
  }

  // ---- Descriptors ---------------------------------------------------------------------------

  datatype Descriptor = Descriptor(id: FileId, closeOnExec: bool)

  const FALLBACK_MAX_FD: nat := 4096
  const CLOSE_LOOP_CAP: nat := 65536

  /** Where the close loop stops when the kernel has no `close_range`. */
  function CloseBound(limit: Option<nat>): nat {
    if limit.Some? then Min(limit.value, CLOSE_LOOP_CAP) else FALLBACK_MAX_FD
  }

  /** The descriptor table of the process. */
  class Descriptors {
    var open: map<nat, Descriptor>

    constructor (inherited: map<nat, Descriptor>)
      ensures open == inherited
    {
      open := inherited;
    }

    method Close(fd: nat)
      modifies this
      ensures open == old(open) - {fd}
    {
      open := open - {fd};
    }

    /** `open_executable`; `fd` is the free number the kernel gives out. */
    method OpenExecutable(now: Snapshot, owner: Uid, info: ExecutableInfo, fd: nat, statFails: bool)
      returns (result: Result<nat, FileError>)
      requires fd !in open
      modifies this
      ensures result.Ok? <==> !statFails && OpensAs(now, owner, info)
      ensures result.Ok? ==> result.value == fd && open == old(open)[fd := Descriptor(info.id, true)]
      ensures result.Err? ==> open == old(open) && result.error == OpenError(now, info, statFails)
    {
      var file := now.openNoFollow(info.path);
      if file.Err? {
        return Err(ErrnoToFileError(file.error, ReadError));
      }
      var st := file.value;
      open := open[fd := Descriptor(st.id, true)];
      if statFails {
        Close(fd);
        return Err(ReadError);
      }
      if st.id != info.id || !Runnable(st, owner) {
        Close(fd);
        return Err(PermissionDenied);
      }
      return Ok(fd);
    }

    /**
     * `apply_resource_limits_and_close_fds`; None stands for the exit when `dup2` fails, `limit` is the
     * descriptor limit read before any reduction.
     */
    method ScrubDescriptors(restricted: bool, executableFd: nat, dup2Fails: bool, closeRangeWorks: bool,
                            limit: Option<nat>)
      returns (kept: Option<nat>)
      requires executableFd in open
      modifies this
      ensures !restricted ==> kept == Some(executableFd) && open == old(open)
      ensures restricted ==> (kept.None? <==> executableFd != 3 && dup2Fails)
      ensures restricted && kept.Some? && !closeRangeWorks ==>
                forall fd | fd in old(open) && 4 <= fd && fd != executableFd ::
                  fd in open <==> if limit.Some? then fd >= limit.value || fd >= 65536 else fd >= 4096
      ensures restricted && kept.Some? ==>
                && kept == Some(3) && 3 in open && open[3].id == old(open)[executableFd].id
                && (forall fd :: fd in open && fd != 3 <==>
                      && fd in old(open) && fd != executableFd && fd != 3
                      && !(4 <= fd && (closeRangeWorks || fd < CloseBound(limit))))
                && (forall fd | fd in open && fd != 3 :: open[fd] == old(open)[fd])
    {
      if !restricted {
        return Some(executableFd);
      }
      if executableFd != 3 {
        if dup2Fails {
          return None;
        }
        open := open[3 := Descriptor(open[executableFd].id, false)];
        Close(executableFd);
      }
      if closeRangeWorks {
        open := map fd | fd in open && fd < 4 :: open[fd];
      } else {
        var maxFd := CloseBound(limit);
        ghost var before := open;
        var i := 4;
        while i < maxFd
          invariant 4 <= i
          invariant forall fd :: fd in open <==> fd in before && !(4 <= fd < i)
          invariant forall fd | fd in open :: open[fd] == before[fd]
          invariant i <= maxFd || i == 4
        {
          Close(i);
          i := i + 1;
        }
      }
      kept := Some(3);
    }

    /** The first step of `do_exec`: the descriptor must survive the exec. */
    method ClearCloseOnExec(fd: nat, fcntlFails: bool) returns (ok: bool)
      requires fd in open
      modifies this
      ensures ok <==> !fcntlFails
      ensures open == if ok then old(open)[fd := old(open)[fd].(closeOnExec := false)] else old(open)
    {
      ok := !fcntlFails;
      if ok {
        open := open[fd := open[fd].(closeOnExec := false)];
      }
    }
  }

  /** Nothing but the executable is left above the standard descriptors. */
  ghost predicate OnlyExecutableLeft(open: map<nat, Descriptor>) {
    forall fd | fd in open && 3 <= fd :: fd == 3
  }

  /** `execute` ends in `fexecve` on a descriptor with an argument vector, or does not run anything. */
  datatype Outcome = Launched(fd: nat, argv: seq<string>) | NotRun

  /** Failures of the stages that have no other effect on what is executed. */
  datatype Faults = Faults(
    openStat: bool, signals: bool, fork: bool, childStages: bool, dup2: bool, fcntl: bool)

  function ShellOf(targetShell: string): string {
    if targetShell == "" then "/bin/sh" else targetShell
  }

  /** The part of a path after its last slash. */
  function FileName(path: string): (name: string)
    ensures '/' !in name
    decreases |path|
  {
    if '/' in path then FileName(path[IndexOf(path, '/').value + 1..]) else path
  }

  /**
   * The file to be executed, if any: the command, or for a login shell the target's shell, checked as any
   * command is.
   */
  function Chosen(atShell: Snapshot, owner: Uid, command: ExecutableInfo, loginShell: bool, targetShell: string)
    : Option<ExecutableInfo>
  {
    if !loginShell then Some(command)
    else
      var absolute := if '/' in ShellOf(targetShell) then atShell.absolute(ShellOf(targetShell)) else None;
      if absolute.None? then None
      else
        var checked := CheckCandidate(atShell, owner, absolute.value);
        if checked.Ok? then Some(checked.value) else None
  }

  /** A command as it is handed over: the file that was found, who owns it, and the shell if there is one. */
  datatype Job = Job(owner: Uid, command: ExecutableInfo, args: seq<string>, loginShell: bool, targetShell: string)

  /** What the kernel answers on the way: when the shell is resolved, when the file is opened, and later. */
  datatype Kernel = Kernel(
    atShell: Snapshot, atOpen: Snapshot, fd: nat, faults: Faults, closeRangeWorks: bool, limit: Option<nat>)

  function ChosenFor(job: Job, k: Kernel): Option<ExecutableInfo> {
    Chosen(k.atShell, job.owner, job.command, job.loginShell, job.targetShell)
  }

  /** There is a file to execute and it can be opened as the one that was validated. */
  ghost predicate Pins(job: Job, k: Kernel) {
    var executable := ChosenFor(job, k);
    executable.Some? && OpensAs(k.atOpen, job.owner, executable.value) && !k.faults.openStat
  }

  /** A child is forked for the command. */
  ghost predicate Forks(job: Job, k: Kernel) {
    Pins(job, k) && !k.faults.signals && !k.faults.fork
  }

  /** The descriptor survives its preparation: `dup2`, if it is moved, and `fcntl` succeed. */
  predicate Prepares(pinned: nat, restricted: bool, faults: Faults) {
    !(restricted && pinned != 3 && faults.dup2) && !faults.fcntl
  }

  /** The child reaches `fexecve`. */
  ghost predicate Launches(job: Job, k: Kernel, restricted: bool) {
    Forks(job, k) && !k.faults.childStages && Prepares(k.fd, restricted, k.faults)
  }

  /** The first part of `execute`, before the fork: choose the file and open it. */
  method PinExecutable(table: Descriptors, job: Job, k: Kernel) returns (pinned: bool)
    requires k.fd !in table.open
    modifies table
    ensures pinned <==> Pins(job, k)
    ensures table.open == if pinned then old(table.open)[k.fd := Descriptor(ChosenFor(job, k).value.id, true)]
                          else old(table.open)
  {
    var executable := job.command;
    if job.loginShell {
      var resolvedShell := ResolveExecutable(k.atShell, job.owner, ShellOf(job.targetShell), "");
      if resolvedShell.Err? {
        return false;
      }
      executable := resolvedShell.value;
    }
    var result := table.OpenExecutable(k.atOpen, job.owner, executable, k.fd, k.faults.openStat);
    pinned := result.Ok?;
  }

  /** The argument vector of `do_exec`. */
  method ArgumentVector(command: string, args: seq<string>, loginShell: bool, targetShell: string)
    returns (argv: seq<string>)
    ensures argv == if loginShell
                    then ["-" + FileName(ShellOf(targetShell)), "-c", ShellQuoting.CommandLine([command] + args)]
                    else [command] + args
  {
    if loginShell {
      var fullCmd := ShellQuoting.FullCommand(command, args);
      return ["-" + FileName(ShellOf(targetShell)), "-c", fullCmd];
    }
    argv := [command];
    for i := 0 to |args|
      invariant argv == [command] + args[..i]
    {
      argv := argv + [args[i]];
    }
    assert args[..|args|] == args;
  }

  /**
   * The argument vector serves the command: a login shell is given a line that it reads back as the command
   * and its arguments, anything else gets them as they are.
   */
  ghost predicate Carries(argv: seq<string>, command: string, args: seq<string>, loginShell: bool, targetShell: string)
  {
    if loginShell then
      && |argv| == 3 && argv[0] == "-" + FileName(ShellOf(targetShell)) && argv[1] == "-c"
      && (ShellQuoting.NulFree([command] + args) ==>
            ShellQuoting.Tokenize(CStr(argv[2])) == Some([command] + args))
    else argv == [command] + args
  }

  /** Every inherited descriptor from 4 on is within reach of the close loop, or needs none. */
  predicate AllReached(open: map<nat, Descriptor>, closeRangeWorks: bool, limit: Option<nat>) {
    closeRangeWorks || forall d | d in open && 4 <= d :: d < CloseBound(limit)
  }

  /** The descriptor on which the child calls `fexecve`, if it gets that far. */
  method PrepareDescriptors(table: Descriptors, pinned: nat, restricted: bool, faults: Faults, closeRangeWorks: bool,
                            limit: Option<nat>)
    returns (ready: Option<nat>)
    requires pinned in table.open
    modifies table
    ensures ready.Some? <==> Prepares(pinned, restricted, faults)
    ensures ready.Some? ==>
              && ready.value in table.open
              && table.open[ready.value] == Descriptor(old(table.open)[pinned].id, false)
    ensures ready.Some? && restricted ==>
              && ready.value == 3
              && (OnlyExecutableLeft(table.open) <==>
                  AllReached(old(table.open) - {pinned}, closeRangeWorks, limit))
  {
    var kept := table.ScrubDescriptors(restricted, pinned, faults.dup2, closeRangeWorks, limit);
    if kept.None? {
      return None;
    }
    ghost var inherited := old(table.open) - {pinned};
    assert restricted ==> forall d | 4 <= d ::
        d in table.open <==> d in inherited && !(closeRangeWorks || d < CloseBound(limit));
    var done := table.ClearCloseOnExec(kept.value, faults.fcntl);
    if restricted && !closeRangeWorks {
      assert forall d | d in inherited && 4 <= d && CloseBound(limit) <= d :: d in table.open && d != 3;
      assert forall d | d in table.open && 4 <= d :: d in inherited && CloseBound(limit) <= d;
    }
    return if done then kept else None;
  }

  /**
   * What `fexecve` gets: a descriptor of the file that was validated, by its identity, and an argument vector
   * that carries the command. On the restricted tier the descriptor is 3, and alone above 2 exactly when the
   * close loop reaches all that was inherited.
   */
  ghost predicate Delivered(before: map<nat, Descriptor>, open: map<nat, Descriptor>, job: Job, k: Kernel,
                            restricted: bool, outcome: Outcome)
    requires outcome.Launched? && ChosenFor(job, k).Some?
  {
    && outcome.fd in open && open[outcome.fd] == Descriptor(ChosenFor(job, k).value.id, false)
    && Carries(outcome.argv, job.command.policyPath, job.args, job.loginShell, job.targetShell)
    && (restricted ==>
          && outcome.fd == 3
          && (OnlyExecutableLeft(open) <==> AllReached(before, k.closeRangeWorks, k.limit)))
  }

  /** A target without a shell has `/bin/sh`. */
  lemma DefaultShell(job: Job, k: Kernel)
    requires job.loginShell && job.targetShell == ""
    ensures ChosenFor(job, k) == ChosenFor(job.(targetShell := "/bin/sh"), k)
    ensures k.atShell.absolute("/bin/sh").Some? ==>
              ChosenFor(job, k) == var checked := CheckCandidate(k.atShell, job.owner,
                                                                 k.atShell.absolute("/bin/sh").value);
                                   if checked.Ok? then Some(checked.value) else None
  {
  }

  /**
   * The file that is executed is fit at the moment it is opened, and is the command itself or, for a login
   * shell, what the path of the target's shell led to, `/bin/sh` if it has none.
   */
  lemma LaunchedIsFit(job: Job, k: Kernel, restricted: bool)
    requires Launches(job, k, restricted)
    ensures ChosenFor(job, k).Some?
    ensures var chosen := ChosenFor(job, k).value; var file := k.atOpen.openNoFollow(chosen.path);
            && file.Ok? && Fit(file.value, job.owner, chosen.id)
            && (!job.loginShell ==> chosen == job.command)
            && (job.loginShell ==>
                  var shell := if job.targetShell == "" then "/bin/sh" else job.targetShell;
                  && '/' in shell && k.atShell.absolute(shell).Some?
                  && k.atShell.realpath(k.atShell.absolute(shell).value) == Ok(chosen.path)
                  && k.atShell.stat(chosen.path).Ok?
                  && Fit(k.atShell.stat(chosen.path).value, job.owner, chosen.id))
  {
  }

  /**
   * `Command::execute` up to `fexecve`, following the child after the fork; `session` is the handle whose
   * session is open. Anything may have happened to the paths since the command was resolved, and between
   * the snapshots of `k`.
   */
  method Execute(pam: Pam.Library, session: nat, table: Descriptors, job: Job, k: Kernel, restricted: bool)
    returns (outcome: Outcome)
    requires pam.Valid() && session in pam.live && session in pam.sessions
    requires k.fd !in table.open
    modifies pam, table
    ensures pam.Valid() && pam.live == old(pam.live) && pam.sessions == old(pam.sessions)
    ensures pam.issued == old(pam.issued)
    ensures pam.calls == old(pam.calls) + if Forks(job, k) then [Pam.Forked(session)] else []
    ensures outcome.Launched? <==> Launches(job, k, restricted)
    ensures outcome.Launched? ==> Delivered(old(table.open), table.open, job, k, restricted, outcome)
    ensures !Forks(job, k) ==> table.open == old(table.open)
  {
    var pinned := PinExecutable(table, job, k);
    if !pinned {
      return NotRun;
    }
    if k.faults.signals || k.faults.fork {
      table.Close(k.fd);
      return NotRun;
    }
    pam.Invoke(Pam.Forked(session));
    if k.faults.childStages {
      return NotRun;
    }
    assert table.open - {k.fd} == old(table.open);
    var ready := PrepareDescriptors(table, k.fd, restricted, k.faults, k.closeRangeWorks, k.limit);
    if ready.None? {
      return NotRun;
    }
    var argv := ArgumentVector(job.command.policyPath, job.args, job.loginShell, job.targetShell);
    ShellQuoting.LoginCommandRoundTrip(job.command.policyPath, job.args);
    outcome := Launched(ready.value, argv);
  }
}
