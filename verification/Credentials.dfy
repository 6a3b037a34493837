/** Who must prove what before a command runs: credential modes, the authenticator, and ticket histories. */
module Credentials {
  import opened Text
  import opened Pam
  import opened SecureIo
  import opened Tickets
  import Acl
  import Decimal

  datatype Mode = SkipTrusted | UseTicket | RequireInteractive | RejectNonInteractive

  /** `select_credential_mode`. */
  function SelectCredentialMode(nopass: bool, callerIsRoot: bool, persistRule: bool, ticketValid: bool,
                                nonInteractive: bool): Mode
  {
    if nopass || callerIsRoot then SkipTrusted
    else if persistRule && ticketValid then UseTicket
    else if nonInteractive then RejectNonInteractive
    else RequireInteractive
  }

  type Seconds = i: int | Decimal.Int64(i) witness 0

  /**
   * One call of `authenticate`: who calls, under which rule, for which target (None when the name is
   * unknown), what the clock and the files give, and what PAM answers to each question if it is asked.
   */
  datatype Attempt = Attempt(
    caller: Uid, callerName: string, nonInteractive: bool,
    rule: Option<Acl.Rule>, target: Option<Uid>,
    readNow: Seconds, readPlan: ReadPlan,
    start: ReturnCode, auth: ReturnCode, account: ReturnCode,
    targetStart: ReturnCode, targetAccount: ReturnCode,
    dirOk: bool, writeNow: Seconds, writePlan: WritePlan)

  predicate PersistRule(a: Attempt) {
    a.rule.Some? && a.rule.value.persist
  }

  function ModeOf(files: Directory, a: Attempt): Mode
    requires a.target.Some?
  {
    var ticket := PersistRule(a) && HasTicket(files, a.caller, a.target.value, a.readNow, a.readPlan, PERSIST_TTL);
    SelectCredentialMode(a.rule.Some? && a.rule.value.nopass, a.callerName == "root", PersistRule(a), ticket,
                         a.nonInteractive)
  }

  /** The attempt reaches PAM at all. */
  predicate Admitted(files: Directory, a: Attempt) {
    a.target.Some? && ModeOf(files, a) != RejectNonInteractive && a.start == PAM_SUCCESS
  }

  /** The user is asked for a password. */
  predicate Prompts(files: Directory, a: Attempt) {
    Admitted(files, a) && ModeOf(files, a) == RequireInteractive
  }

  /** The attempt succeeds: a proof or a reason to do without, and both accounts in order. */
  predicate Passes(files: Directory, a: Attempt) {
    && Admitted(files, a)
    && (Prompts(files, a) ==> a.auth == PAM_SUCCESS)
    && a.account == PAM_SUCCESS && a.targetStart == PAM_SUCCESS && a.targetAccount == PAM_SUCCESS
  }

  /** The attempt succeeds by a real proof under a rule that lets it be remembered. */
  predicate Mints(files: Directory, a: Attempt) {
    Passes(files, a) && Prompts(files, a) && PersistRule(a)
  }

  function AfterAttempt(files: Directory, a: Attempt): Directory {
    if Mints(files, a)
    then Recorded(files, a.caller, a.target.value, a.dirOk, a.writeNow, a.writePlan).0
    else files
  }

  /** A trust rule, root, or a ticket under a persist rule excuses the caller from a proof. */
  predicate Excused(files: Directory, a: Attempt)
    requires a.target.Some?
  {
    || (a.rule.Some? && a.rule.value.nopass)
    || a.callerName == "root"
    || (PersistRule(a) && HasTicket(files, a.caller, a.target.value, a.readNow, a.readPlan, PERSIST_TTL))
  }

  /**
   * Who must prove what: the password is asked for exactly when there is no excuse and prompting is not
   * forbidden, `-n` never prompts but honours every excuse, and both accounts are checked in any case.
   */
  lemma WhoMustProve(files: Directory, a: Attempt)
    requires a.target.Some?
    ensures Prompts(files, a) <==> a.start == PAM_SUCCESS && !Excused(files, a) && !a.nonInteractive
    ensures Passes(files, a) <==>
              && a.start == PAM_SUCCESS
              && (Excused(files, a) || (!a.nonInteractive && a.auth == PAM_SUCCESS))
              && a.account == PAM_SUCCESS && a.targetStart == PAM_SUCCESS && a.targetAccount == PAM_SUCCESS
    ensures Mints(files, a) <==> Passes(files, a) && !Excused(files, a) && PersistRule(a)
  {
  }

  // ---- What is said to PAM --------------------------------------------------------------------

  /** The target's account, asked about on a handle of its own that is ended whatever the answer. */
  function TargetDialogue(h: nat, start: ReturnCode, account: ReturnCode): seq<Call> {
    if start != PAM_SUCCESS then [StartFailed(start)] else [Start(h), Account(h, account), End(h)]
  }

  predicate TargetFine(a: Attempt) {
    a.targetStart == PAM_SUCCESS && a.targetAccount == PAM_SUCCESS
  }

  /** From the check of the target on; a bad answer ends the caller's handle `h`. */
  function TargetPart(h: nat, a: Attempt): seq<Call> {
    TargetDialogue(h + 1, a.targetStart, a.targetAccount) + if TargetFine(a) then [] else [End(h)]
  }

  /** From the check of the caller's account on. */
  function AccountPart(h: nat, a: Attempt): seq<Call> {
    [Account(h, a.account)] + if a.account != PAM_SUCCESS then [End(h)] else TargetPart(h, a)
  }

  /** From the proof on. */
  function ProofPart(h: nat, interactive: bool, a: Attempt): seq<Call> {
    if !interactive then AccountPart(h, a)
    else [Call.Authenticate(h, a.auth)] + if a.auth != PAM_SUCCESS then [End(h)] else AccountPart(h, a)
  }

  /** From the start of the caller's handle, number `h`, on. */
  function CallerPart(h: nat, interactive: bool, a: Attempt): seq<Call> {
    if a.start != PAM_SUCCESS then [StartFailed(a.start)] else [Start(h)] + ProofPart(h, interactive, a)
  }

  /** All of it: first a handle left over is ended. */
  function Dialogue(left: Option<nat>, h: nat, interactive: bool, a: Attempt): seq<Call> {
    (if left.Some? then [End(left.value)] else []) + CallerPart(h, interactive, a)
  }

  /** The target is unknown, or a proof is needed but asking for it is forbidden. */
  predicate Silent(files: Directory, a: Attempt) {
    a.target.None? || ModeOf(files, a) == RejectNonInteractive
  }

  /** What an attempt says to PAM. */
  function Said(files: Directory, left: Option<nat>, h: nat, a: Attempt): seq<Call> {
    if Silent(files, a) then []
    else Dialogue(left, h, ModeOf(files, a) == RequireInteractive, a)
  }

  function Opening(pamh: Option<nat>, credentials: ReturnCode, session: ReturnCode): seq<Call> {
    if pamh.None? then []
    else if credentials != PAM_SUCCESS then [Credentials(pamh.value, true, credentials)]
    else [Credentials(pamh.value, true, credentials), Call.OpenSession(pamh.value, session)]
  }

  function Closing(pamh: Option<nat>, session: ReturnCode, credentials: ReturnCode): seq<Call> {
    if pamh.None? then []
    else [Call.CloseSession(pamh.value, session), Credentials(pamh.value, false, credentials), End(pamh.value)]
  }

  /** Opening calls for a session at most once, closing closes exactly once. */
  lemma SessionPart(h: nat, credentials: ReturnCode, session: ReturnCode)
    ensures SessionCalls(Opening(Some(h), credentials, session)) ==
            if credentials != PAM_SUCCESS then [] else [Call.OpenSession(h, session)]
    ensures SessionCalls(Closing(Some(h), session, credentials)) == [Call.CloseSession(h, session)]
    ensures Pam.Prompts(Opening(Some(h), credentials, session)) == 0
    ensures Pam.Prompts(Closing(Some(h), session, credentials)) == 0
  {
    TwoCalls(Credentials(h, true, credentials), Call.OpenSession(h, session));
    ThreeCalls(Call.CloseSession(h, session), Credentials(h, false, credentials), End(h));
  }

  lemma AccountPartCalls(h: nat, a: Attempt)
    ensures Pam.Prompts(AccountPart(h, a)) == 0 && SessionCalls(AccountPart(h, a)) == []
  {
    var target := TargetDialogue(h + 1, a.targetStart, a.targetAccount);
    ThreeCalls(Start(h + 1), Account(h + 1, a.targetAccount), End(h + 1));
    Joined(target, if TargetFine(a) then [] else [End(h)]);
    Joined([Account(h, a.account)], if a.account != PAM_SUCCESS then [End(h)] else TargetPart(h, a));
  }

  lemma ProofPartCalls(h: nat, interactive: bool, a: Attempt)
    ensures Pam.Prompts(ProofPart(h, interactive, a)) == if interactive then 1 else 0
    ensures SessionCalls(ProofPart(h, interactive, a)) == []
  {
    AccountPartCalls(h, a);
    Joined([Call.Authenticate(h, a.auth)], if a.auth != PAM_SUCCESS then [End(h)] else AccountPart(h, a));
  }

  /**
   * An attempt leaves sessions alone. It asks for the password once if there is no excuse and asking is not
   * forbidden, and otherwise never.
   */
  lemma SaidCalls(files: Directory, left: Option<nat>, h: nat, a: Attempt)
    ensures SessionCalls(Said(files, left, h, a)) == []
    ensures Pam.Prompts(Said(files, left, h, a)) == if Prompts(files, a) then 1 else 0
    ensures Prompts(files, a) <==>
              a.target.Some? && a.start == PAM_SUCCESS && !Excused(files, a) && !a.nonInteractive
  {
    if a.target.Some? {
      WhoMustProve(files, a);
    }
    if a.target.Some? && ModeOf(files, a) != RejectNonInteractive {
      var interactive := ModeOf(files, a) == RequireInteractive;
      ProofPartCalls(h, interactive, a);
      Joined([Start(h)], ProofPart(h, interactive, a));
      Joined(if left.Some? then [End(left.value)] else [], CallerPart(h, interactive, a));
    }
  }

  /** An attempt that passes asked about both accounts, on different handles, after any proof. */
  lemma PassingChecksAccounts(files: Directory, left: Option<nat>, h: nat, a: Attempt)
    requires Passes(files, a)
    ensures var proof := if Prompts(files, a) then [Call.Authenticate(h, PAM_SUCCESS)] else [];
            Said(files, left, h, a) ==
            (if left.Some? then [End(left.value)] else []) + [Start(h)] + proof + [Account(h, PAM_SUCCESS)]
            + [Start(h + 1), Account(h + 1, PAM_SUCCESS), End(h + 1)]
  {
  }

  datatype Reason =
    | NoError | TargetUnknown | NonInteractive | PamInit | PamAuthentication | CallerAccount
    | TargetInit | TargetAccount | CredentialSetup | SessionSetup

  class PamAuthenticator {
    const pam: Library
    const tickets: TicketStore
    var pamh: Option<nat>
    var lastError: Reason

    /** The one live handle, if any, is the one in `pamh`. */
    ghost predicate Valid()
      reads this, pam
    {
      pam.Valid() && pam.live == if pamh.Some? then {pamh.value} else {}
    }

    constructor (pam: Library, tickets: TicketStore)
      requires pam.Valid() && pam.live == {}
      ensures Valid() && this.pam == pam && this.tickets == tickets && pamh.None?
    {
      this.pam, this.tickets := pam, tickets;
      pamh, lastError := None, NoError;
    }

    /** The destructor. */
    method Destroy()
      requires Valid()
      modifies this, pam
      ensures Valid() && pam.live == {} && pam.sessions == old(pam.sessions)
      ensures pam.calls == old(pam.calls) + if old(pamh).Some? then [End(old(pamh).value)] else []
    {
      if pamh.Some? {
        EndHandle();
      }
    }

    method EndHandle()
      requires Valid() && pamh.Some?
      modifies this`pamh, pam
      ensures Valid() && pamh.None? && pam.sessions == old(pam.sessions)
      ensures pam.calls == old(pam.calls) + [End(old(pamh).value)]
      ensures pam.issued == old(pam.issued)
    {
      pam.Invoke(End(pamh.value));
      pamh := None;
    }

    /** `clear_timestamp`, the effect of `-k`. */
    method ClearTimestamp(uid: Uid, isDirectory: bool, stuck: set<string>)
      requires Valid()
      modifies tickets
      ensures Valid()
      ensures tickets.files == WithoutCaller(old(tickets.files), uid, isDirectory, stuck)
    {
      tickets.ClearAllForCaller(uid, isDirectory, stuck);
    }

    /** `validate_target_account`: a handle of its own, ended before the method returns. */
    method ValidateTargetAccount(start: ReturnCode, account: ReturnCode) returns (error: Reason)
      requires Valid()
      modifies pam
      ensures Valid() && pam.sessions == old(pam.sessions)
      ensures pam.calls == old(pam.calls) + TargetDialogue(old(pam.issued), start, account)
      ensures error == if start != PAM_SUCCESS then TargetInit
                       else if account != PAM_SUCCESS then TargetAccount else NoError
    {
      var handle := pam.Begin(start);
      if handle.None? {
        return TargetInit;
      }
      var h := handle.value;
      pam.Invoke(Account(h, account));
      pam.Invoke(End(h));
      return if account != PAM_SUCCESS then TargetAccount else NoError;
    }

    /** Give up: keep the reason and end the caller's handle. */
    method Fail(reason: Reason)
      requires Valid() && pamh.Some?
      modifies this, pam
      ensures Valid() && pamh.None? && pam.sessions == old(pam.sessions)
      ensures pam.calls == old(pam.calls) + [End(old(pamh).value)]
      ensures lastError == reason
    {
      lastError := reason;
      EndHandle();
    }

    /** `authenticate`. */
    method Authenticate(a: Attempt) returns (ok: bool)
      requires Valid()
      modifies this, pam, tickets
      ensures Valid() && pam.sessions == old(pam.sessions)
      ensures ok <==> Passes(old(tickets.files), a)
      ensures tickets.files == AfterAttempt(old(tickets.files), a)
      ensures pam.calls == old(pam.calls) + Said(old(tickets.files), old(pamh), old(pam.issued), a)
      ensures pamh == if ok then Some(old(pam.issued)) else if Silent(old(tickets.files), a) then old(pamh) else None
      ensures ok <==> lastError.NoError?
    {
      ok, lastError := false, NoError;
      if a.target.None? {
        lastError := TargetUnknown;
        return;
      }
      var mode := ChooseMode(a);
      if mode == RejectNonInteractive {
        lastError := NonInteractive;
        return;
      }
      ok := Converse(mode == RequireInteractive, a);
      assert ok <==> Passes(tickets.files, a);
      if ok && PersistRule(a) && mode == RequireInteractive {
        var recorded := tickets.Record(a.caller, a.target.value, a.dirOk, a.writeNow, a.writePlan);
      }
    }

    /** The first part of `authenticate`: tickets are looked at under a persist rule only. */
    method ChooseMode(a: Attempt) returns (mode: Mode)
      requires a.target.Some?
      ensures mode == ModeOf(tickets.files, a)
    {
      var nopass := a.rule.Some? && a.rule.value.nopass;
      var persistRule := a.rule.Some? && a.rule.value.persist;
      var callerIsRoot := a.callerName == "root";
      var ticketValid := false;
      if persistRule {
        ticketValid := tickets.Valid(a.caller, a.target.value, a.readNow, a.readPlan);
      }
      mode := SelectCredentialMode(nopass, callerIsRoot, persistRule, ticketValid, a.nonInteractive);
    }

    /** The part of `authenticate` that talks to PAM, `interactive` when a credential must be verified. */
    method Converse(interactive: bool, a: Attempt) returns (ok: bool)
      requires Valid() && lastError.NoError?
      modifies this, pam
      ensures Valid() && pam.sessions == old(pam.sessions)
      ensures pam.calls == old(pam.calls) + Dialogue(old(pamh), old(pam.issued), interactive, a)
      ensures ok <==> a.start == PAM_SUCCESS && (interactive ==> a.auth == PAM_SUCCESS) && a.account == PAM_SUCCESS
                      && TargetFine(a)
      ensures pamh == if ok then Some(old(pam.issued)) else None
      ensures ok <==> lastError.NoError?
    {
      ghost var before := pam.calls;
      ghost var ended := if pamh.Some? then [End(pamh.value)] else [];
      if pamh.Some? {
        EndHandle();
      }
      Append(before, ended, CallerPart(pam.issued, interactive, a));
      ok := StartCaller(interactive, a);
    }

    /** `authenticate` from the start of the caller's handle on. */
    method StartCaller(interactive: bool, a: Attempt) returns (ok: bool)
      requires Valid() && pamh.None? && lastError.NoError?
      modifies this, pam
      ensures Valid() && pam.sessions == old(pam.sessions)
      ensures pam.calls == old(pam.calls) + CallerPart(old(pam.issued), interactive, a)
      ensures ok <==> a.start == PAM_SUCCESS && (interactive ==> a.auth == PAM_SUCCESS) && a.account == PAM_SUCCESS
                      && TargetFine(a)
      ensures pamh == if ok then Some(old(pam.issued)) else None
      ensures ok <==> lastError.NoError?
    {
      ghost var before := pam.calls;
      pamh := pam.Begin(a.start);
      if pamh.None? {
        lastError := PamInit;
        return false;
      }
      Append(before, [Start(pamh.value)], ProofPart(pamh.value, interactive, a));
      ok := VerifyCaller(interactive, a);
    }

    /** `authenticate` from the proof on. */
    method VerifyCaller(interactive: bool, a: Attempt) returns (ok: bool)
      requires Valid() && pamh == Some(pam.issued - 1) && lastError.NoError?
      modifies this, pam
      ensures Valid() && pam.sessions == old(pam.sessions)
      ensures pam.calls == old(pam.calls) + ProofPart(old(pam.issued) - 1, interactive, a)
      ensures ok <==> (interactive ==> a.auth == PAM_SUCCESS) && a.account == PAM_SUCCESS && TargetFine(a)
      ensures pamh == if ok then old(pamh) else None
      ensures ok <==> lastError.NoError?
    {
      if interactive {
        Append(pam.calls, [Call.Authenticate(pamh.value, a.auth)],
               if a.auth != PAM_SUCCESS then [End(pamh.value)] else AccountPart(pamh.value, a));
        pam.Invoke(Call.Authenticate(pamh.value, a.auth));
        if a.auth != PAM_SUCCESS {
          Fail(PamAuthentication);
          return false;
        }
      }
      ok := VerifyAccounts(a);
    }

    /** `authenticate` from the caller's account on. */
    method VerifyAccounts(a: Attempt) returns (ok: bool)
      requires Valid() && pamh == Some(pam.issued - 1) && lastError.NoError?
      modifies this, pam
      ensures Valid() && pam.sessions == old(pam.sessions)
      ensures pam.calls == old(pam.calls) + AccountPart(old(pam.issued) - 1, a)
      ensures ok <==> a.account == PAM_SUCCESS && TargetFine(a)
      ensures pamh == if ok then old(pamh) else None
      ensures ok <==> lastError.NoError?
    {
      Append(pam.calls, [Account(pamh.value, a.account)],
             if a.account != PAM_SUCCESS then [End(pamh.value)] else TargetPart(pamh.value, a));
      pam.Invoke(Account(pamh.value, a.account));
      if a.account != PAM_SUCCESS {
        Fail(CallerAccount);
        return false;
      }
      ghost var before := pam.calls;
      var targetError := ValidateTargetAccount(a.targetStart, a.targetAccount);
      ok := targetError.NoError?;
      Append(before, TargetDialogue(pamh.value + 1, a.targetStart, a.targetAccount), [End(pamh.value)]);
      if !ok {
        Fail(targetError);
      }
    }

    /** `openSession`: credentials first, then the session. */
    method OpenSession(credentials: ReturnCode, session: ReturnCode) returns (ok: bool)
      requires Valid()
      modifies this`lastError, pam
      ensures Valid()
      ensures ok <==> pamh.None? || (credentials == PAM_SUCCESS && session == PAM_SUCCESS)
      ensures ok <==> lastError.NoError?
      ensures pam.sessions == old(pam.sessions) + if ok && pamh.Some? then {pamh.value} else {}
      ensures pam.calls == old(pam.calls) + Opening(pamh, credentials, session)
    {
      lastError := NoError;
      if pamh.None? {
        return true;
      }
      pam.Invoke(Credentials(pamh.value, true, credentials));
      if credentials != PAM_SUCCESS {
        lastError := CredentialSetup;
        return false;
      }
      pam.Invoke(Call.OpenSession(pamh.value, session));
      if session != PAM_SUCCESS {
        lastError := SessionSetup;
        return false;
      }
      return true;
    }

    /** `closeSession`: failures are logged only, the handle is given up in any case. */
    method CloseSession(session: ReturnCode, credentials: ReturnCode)
      requires Valid()
      modifies this`pamh, pam
      ensures Valid() && pamh.None?
      ensures pam.sessions == old(pam.sessions) - if old(pamh).Some? then {old(pamh).value} else {}
      ensures pam.calls == old(pam.calls) + Closing(old(pamh), session, credentials)
    {
      if pamh.Some? {
        pam.Invoke(Call.CloseSession(pamh.value, session));
        pam.Invoke(Credentials(pamh.value, false, credentials));
        EndHandle();
      }
    }
  }

  datatype Operation =
    | DoAuthenticate(a: Attempt)
    | DoOpen(credentials: ReturnCode, session: ReturnCode)
    | DoClose(session: ReturnCode, credentials: ReturnCode)
    | DoClear(uid: Uid, isDirectory: bool, stuck: set<string>)

  /** Handles balance over every sequence of calls with every return code, from construction to destruction. */
  method AnyLifetime(pam: Library, tickets: TicketStore, operations: seq<Operation>)
    requires pam.Valid() && pam.live == {}
    modifies pam, tickets
    ensures pam.live == {}
  {
    var authenticator := new PamAuthenticator(pam, tickets);
    for i := 0 to |operations|
      invariant authenticator.Valid() && authenticator.pam == pam && authenticator.tickets == tickets
    {
      match operations[i] {
        case DoAuthenticate(a) => var ok := authenticator.Authenticate(a);
        case DoOpen(c, s) => var ok := authenticator.OpenSession(c, s);
        case DoClose(s, c) => authenticator.CloseSession(s, c);
        case DoClear(uid, isDirectory, stuck) => authenticator.ClearTimestamp(uid, isDirectory, stuck);
      }
    }
    authenticator.Destroy();
  }

  // ---- Histories -----------------------------------------------------------------------------

  /** What can happen to the ticket directory, by any caller in any process, one call after the other. */
  datatype Event =
    | Attempted(a: Attempt)
    | Cleared(caller: Uid, target: Uid, fails: bool)
    | ClearedAll(caller: Uid, isDirectory: bool, stuck: set<string>)

  function After(files: Directory, e: Event): Directory {
    match e
    case Attempted(a) => AfterAttempt(files, a)
    case Cleared(caller, target, fails) => Without(files, caller, target, fails)
    case ClearedAll(caller, isDirectory, stuck) => WithoutCaller(files, caller, isDirectory, stuck)
  }

  /** The directory a history leaves, starting from an empty one. */
  function FilesAfter(history: seq<Event>): Directory {
    if history == [] then map[]
    else After(FilesAfter(history[..|history| - 1]), history[|history| - 1])
  }

  /** The event takes the ticket of this pair away. */
  predicate Removes(e: Event, caller: Uid, target: Uid) {
    match e
    case Attempted(_) => false
    case Cleared(c, t, fails) => c == caller && t == target && !fails
    case ClearedAll(c, isDirectory, stuck) => c == caller && isDirectory && Name(caller, target) !in stuck
  }

  /** Event `j` proved the caller's identity for this pair and wrote the ticket that is there at the end. */
  ghost predicate Justifies(history: seq<Event>, j: nat, caller: Uid, target: Uid) {
    && j < |history| && history[j].Attempted?
    && var b := history[j].a;
    && b.caller == caller && b.target == Some(target)
    && Mints(FilesAfter(history[..j]), b) && b.dirOk && b.writePlan.openError.None?
    && (forall k | j < k < |history| :: !Removes(history[k], caller, target))
  }

  /** The text event `j` left in the ticket, and whether it is all of it. */
  ghost function LeftBy(history: seq<Event>, j: nat): (string, bool)
    requires j < |history| && history[j].Attempted? && history[j].a.target.Some?
  {
    var b := history[j].a;
    var name := Name(b.caller, b.target.value);
    var (node, result) :=
      Written(Lookup(FilesAfter(history[..j]), name), b.writePlan, Decimal.PrintInt(b.writeNow));
    (if node.Some? then node.value.content else "", result.Ok?)
  }

  /** Every ticket in the directory has an origin in the history. */
  lemma {:induction false} TicketHasOrigin(history: seq<Event>, caller: Uid, target: Uid) returns (j: nat)
    requires Name(caller, target) in FilesAfter(history)
    ensures Justifies(history, j, caller, target)
    ensures FilesAfter(history)[Name(caller, target)].content == LeftBy(history, j).0
  {
    var n := |history| - 1;
    var before, e := history[..n], history[n];
    var name := Name(caller, target);
    if e.Attempted? && Mints(FilesAfter(before), e.a) && e.a.dirOk && e.a.writePlan.openError.None?
       && Name(e.a.caller, e.a.target.value) == name
    {
      NamesDiffer(e.a.caller, e.a.target.value, caller, target);
      j := n;
    } else {
      StaysInPlace(before, e, caller, target);
      j := TicketHasOrigin(before, caller, target);
      OriginStays(history, j, caller, target);
    }
  }

  /** A ticket is gone after an event that removes it, and only an attempt can bring one. */
  lemma RemovalIsExact(files: Directory, e: Event, caller: Uid, target: Uid)
    requires !e.Attempted?
    ensures Lookup(After(files, e), Name(caller, target)) ==
            if Removes(e, caller, target) then None else Lookup(files, Name(caller, target))
  {
    match e
    case Attempted(_) =>
    case Cleared(c, t, fails) => ClearIsExact(files, c, t, fails, caller, target);
    case ClearedAll(c, isDirectory, stuck) => ClearAllIsExact(files, c, isDirectory, stuck, caller, target);
  }

  /** The attempt succeeds by a proof and its ticket is written in full. */
  predicate Remembered(files: Directory, b: Attempt) {
    && Mints(files, b)
    && WritesAll(files, b.caller, b.target.value, b.dirOk, b.writeNow, b.writePlan)
  }

  /** The event neither removes the ticket of the pair nor writes a new one. */
  predicate Leaves(files: Directory, e: Event, caller: Uid, target: Uid) {
    && !Removes(e, caller, target)
    && (e.Attempted? ==> !(Mints(files, e.a) && e.a.caller == caller && e.a.target == Some(target)))
  }

  /** No event after event `j` removes or replaces the ticket. */
  predicate LeftAlone(history: seq<Event>, j: nat, caller: Uid, target: Uid)
    decreases |history|
  {
    var n := |history| - 1;
    n > j ==> LeftAlone(history[..n], j, caller, target) && Leaves(FilesAfter(history[..n]), history[n], caller, target)
  }

  /** What is under the pair's name stays there as long as nothing removes or replaces it. */
  lemma {:induction false} StaysAfter(history: seq<Event>, j: nat, caller: Uid, target: Uid, upTo: seq<Event>)
    requires j < |history| && LeftAlone(history, j, caller, target) && upTo == history[..j + 1]
    ensures Lookup(FilesAfter(history), Name(caller, target)) == Lookup(FilesAfter(upTo), Name(caller, target))
    decreases |history|
  {
    var n := |history| - 1;
    var before := history[..n];
    if n == j {
      assert upTo == history;
    } else {
      assert upTo == before[..j + 1];
      StaysAfter(before, j, caller, target, upTo);
      LeavesAlone(FilesAfter(before), history[n], caller, target);
      assert FilesAfter(history) == After(FilesAfter(before), history[n]);
    }
  }

  /** The ticket of a remembered proof lasts that long. */
  lemma {:induction false} TicketLasts(history: seq<Event>, j: nat, b: Attempt, caller: Uid, target: Uid)
    requires j < |history| && history[j] == Attempted(b) && b.caller == caller && b.target == Some(target)
    requires Remembered(FilesAfter(history[..j]), b) && LeftAlone(history, j, caller, target)
    ensures Lookup(FilesAfter(history), Name(caller, target)) == Some(Node(Decimal.PrintInt(b.writeNow), true))
  {
    var upTo := history[..j + 1];
    assert upTo[..|upTo| - 1] == history[..j];
    RecordedExactly(FilesAfter(history[..j]), caller, target, b.dirOk, b.writeNow, b.writePlan);
    StaysAfter(history, j, caller, target, upTo);
  }

  lemma {:induction false} LeavesAlone(files: Directory, e: Event, caller: Uid, target: Uid)
    requires Leaves(files, e, caller, target)
    ensures Lookup(After(files, e), Name(caller, target)) == Lookup(files, Name(caller, target))
  {
    if e.Attempted? {
      if Mints(files, e.a) {
        NamesDiffer(e.a.caller, e.a.target.value, caller, target);
        RecordedExactly(files, e.a.caller, e.a.target.value, e.a.dirOk, e.a.writeNow, e.a.writePlan);
      }
    } else {
      RemovalIsExact(files, e, caller, target);
    }
  }

  /**
   * A proof is remembered: in every history, for 900 seconds after an attempt whose ticket was written in full,
   * and not a second longer, an attempt for the same pair under a persist rule needs no password, unless the
   * ticket was removed or replaced in between or cannot be read.
   */
  lemma {:induction false} ProofIsRemembered(history: seq<Event>, j: nat, b: Attempt, a: Attempt)
    requires j < |history| && history[j] == Attempted(b) && Remembered(FilesAfter(history[..j]), b)
    requires a.caller == b.caller && a.target == b.target && a.target.Some?
    requires LeftAlone(history, j, a.caller, a.target.value)
    requires PersistRule(a) && !a.rule.value.nopass && a.callerName != "root"
    requires ReadsAll(b.writeNow, a.readPlan) && Undisturbed(a.readPlan.steps, Decimal.PrintInt(b.writeNow))
    ensures var files := FilesAfter(history);
            if 0 <= a.readNow - b.writeNow <= 900 then
              && ModeOf(files, a) == UseTicket && !Prompts(files, a)
              && (Passes(files, a) <==> a.start == PAM_SUCCESS && a.account == PAM_SUCCESS && TargetFine(a))
            else
              ModeOf(files, a) == if a.nonInteractive then RejectNonInteractive else RequireInteractive
  {
    TicketLasts(history, j, b, a.caller, a.target.value);
    TicketTells(FilesAfter(history), a, b.writeNow);
    WhoMustProve(FilesAfter(history), a);
  }

  /** A ticket written in full is valid for 900 seconds, if it can be read. */
  lemma {:induction false} TicketTells(files: Directory, a: Attempt, w: Seconds)
    requires a.target.Some?
    requires Lookup(files, Name(a.caller, a.target.value)) == Some(Node(Decimal.PrintInt(w), true))
    requires ReadsAll(w, a.readPlan) && Undisturbed(a.readPlan.steps, Decimal.PrintInt(w))
    ensures HasTicket(files, a.caller, a.target.value, a.readNow, a.readPlan, PERSIST_TTL) <==>
            0 <= a.readNow - w <= 900
  {
    UndisturbedReadExactly(Decimal.PrintInt(w), "", a.readPlan.steps);
    CompleteTicket(w, a.readNow, PERSIST_TTL);
  }

  /** An origin stays one after an event that does not remove the ticket. */
  lemma {:induction false} OriginStays(history: seq<Event>, j: nat, caller: Uid, target: Uid)
    requires history != [] && Justifies(history[..|history| - 1], j, caller, target)
    requires !Removes(history[|history| - 1], caller, target)
    ensures Justifies(history, j, caller, target)
    ensures LeftBy(history, j) == LeftBy(history[..|history| - 1], j)
  {
    var before := history[..|history| - 1];
    assert before[..j] == history[..j];
    assert forall k | j < k < |before| :: history[k] == before[k];
  }

  /** An event that neither writes nor removes a ticket leaves it alone. */
  lemma {:induction false} StaysInPlace(before: seq<Event>, e: Event, caller: Uid, target: Uid)
    requires var name := Name(caller, target); name in After(FilesAfter(before), e)
    requires e.Attempted? && Mints(FilesAfter(before), e.a) && e.a.dirOk && e.a.writePlan.openError.None? ==>
               Name(e.a.caller, e.a.target.value) != Name(caller, target)
    ensures !Removes(e, caller, target)
    ensures var name := Name(caller, target);
            name in FilesAfter(before) && After(FilesAfter(before), e)[name] == FilesAfter(before)[name]
  {
  }

  /** A ticket that is accepted is there and its text is fresh. */
  lemma UsedTicketIsFresh(files: Directory, a: Attempt)
    requires a.target.Some? && ModeOf(files, a) == UseTicket
    requires var name := Name(a.caller, a.target.value);
             name in files ==> Undisturbed(a.readPlan.steps, files[name].content)
    ensures var name := Name(a.caller, a.target.value);
            name in files && Fresh(files[name].content, a.readNow, PERSIST_TTL)
  {
    var name := Name(a.caller, a.target.value);
    if name in files {
      UndisturbedRead(files[name].content, "", a.readPlan.steps);
    }
  }

  /** What the writer of a ticket leaves: the whole printed time, or less of it. */
  lemma {:induction false} WhatIsLeft(history: seq<Event>, j: nat)
    requires j < |history| && history[j].Attempted? && history[j].a.target.Some?
    requires history[j].a.writePlan.openError.None?
    ensures var (content, complete) := LeftBy(history, j);
            var printed := Decimal.PrintInt(history[j].a.writeNow);
            if complete then content == printed else content < printed
  {
  }

  /** What the writer of a ticket leaves: so many characters of the printed time. */
  ghost function CharactersLeft(history: seq<Event>, j: nat): (k: nat)
    requires j < |history| && history[j].Attempted? && history[j].a.target.Some?
    requires history[j].a.writePlan.openError.None?
    ensures k <= |Decimal.PrintInt(history[j].a.writeNow)|
    ensures LeftBy(history, j).0 == Decimal.PrintInt(history[j].a.writeNow)[..k]
    ensures LeftBy(history, j).1 <==> k == |Decimal.PrintInt(history[j].a.writeNow)|
  {
    WhatIsLeft(history, j);
    |LeftBy(history, j).0|
  }

  /** Whatever was cut off, the time that is read is the one written, or the clock is behind it or near its start. */
  lemma FreshCutTellsTime(w: Seconds, k: nat, now: int)
    requires k <= |Decimal.PrintInt(w)| && Fresh(Decimal.PrintInt(w)[..k], now, PERSIST_TTL)
    ensures CutTime(w, k).Some? && 0 <= now - CutTime(w, k).value <= 900
    ensures k == |Decimal.PrintInt(w)| ==> 0 <= now - w <= 900
    ensures k < |Decimal.PrintInt(w)| ==> now < w || (w <= 1000 && !(-10 < w < 10))
  {
    CutTicket(w, k, now, PERSIST_TTL);
    if k == |Decimal.PrintInt(w)| {
      assert Decimal.PrintInt(w)[..k] == Decimal.PrintInt(w);
      CompleteTicket(w, now, PERSIST_TTL);
    } else if now >= w && (-10 < w < 10 || w > 1000) {
      TornTicketRefused(w, k, now);
      assert false;
    }
  }

  /**
   * Tickets are justified in every history. If an attempt gets through by a ticket, an earlier attempt for
   * the same caller and target gave a real proof under a persist rule with both accounts in order, nothing
   * took the ticket away since, and the time spelled by the characters that were written is at most 900
   * seconds ago and not in the future. If all were written, that is the time of the proof; if the write
   * broke off, the clock has gone back behind it or it was written before second 1001 of the epoch.
   */
  lemma {:induction false} TicketsAreJustified(history: seq<Event>, a: Attempt) returns (j: nat)
    requires var files := FilesAfter(history); Passes(files, a) && ModeOf(files, a) == UseTicket
    requires var files := FilesAfter(history); var name := Name(a.caller, a.target.value);
             name in files ==> Undisturbed(a.readPlan.steps, files[name].content)
    ensures Justifies(history, j, a.caller, a.target.value)
    ensures forall k | j < k < |history| :: !Removes(history[k], a.caller, a.target.value)
    ensures var w, k := history[j].a.writeNow, CharactersLeft(history, j);
            && CutTime(w, k).Some? && 0 <= a.readNow - CutTime(w, k).value <= 900
            && (k == |Decimal.PrintInt(w)| ==> 0 <= a.readNow - w <= 900)
            && (k < |Decimal.PrintInt(w)| ==> a.readNow < w || (w <= 1000 && !(-10 < w < 10)))
  {
    UsedTicketIsFresh(FilesAfter(history), a);
    j := TicketHasOrigin(history, a.caller, a.target.value);
    FreshCutTellsTime(history[j].a.writeNow, CharactersLeft(history, j), a.readNow);
  }

  /** The attempt of user 7 for root under a persist rule, with everything in order. */
  function PersistAttempt(write: seq<WriteStep>, read: seq<ReadStep>, now: Seconds): Attempt {
    var rule := Acl.Rule("", None, None, "", None, "", [], [], "", Acl.Permit, false, false, true, false, false);
    Attempt(7, "user", false, Some(rule), Some(0), now, ReadPlan(None, false, false, read),
            PAM_SUCCESS, PAM_SUCCESS, PAM_SUCCESS, PAM_SUCCESS, PAM_SUCCESS,
            true, now, WritePlan(None, false, write))
  }

  /**
   * The exception is real: a ticket for second 500 of which two of three characters were written spells
   * second 50, and lets the same user pass without a proof at second 500 already.
   */
  lemma TornTicketLetsPass(text: string)
    requires text == Decimal.PrintInt(500)[..2]
    ensures var history := [Attempted(PersistAttempt([Wrote(2)], [], 500))];
            var a := PersistAttempt([], [ReadUpTo(2, text)], 500);
            Passes(FilesAfter(history), a) && ModeOf(FilesAfter(history), a) == UseTicket
  {
    var b := PersistAttempt([Wrote(2)], [], 500);
    var a := PersistAttempt([], [ReadUpTo(2, text)], 500);
    var history := [Attempted(b)];
    assert history[..0] == [];
    assert FilesAfter(history[..0]) == map[] && Mints(map[], b);
    TornRecordIsAccepted(7, 0, text);
  }

  /** With a clock past its first 1000 seconds that never goes back, every ticket used is complete and fresh. */
  lemma {:induction false} TicketsAreFresh(history: seq<Event>, a: Attempt) returns (j: nat)
    requires var files := FilesAfter(history); Passes(files, a) && ModeOf(files, a) == UseTicket
    requires var files := FilesAfter(history); var name := Name(a.caller, a.target.value);
             name in files ==> Undisturbed(a.readPlan.steps, files[name].content)
    requires forall e | e in history && e.Attempted? :: 1000 < e.a.writeNow <= a.readNow
    ensures Justifies(history, j, a.caller, a.target.value)
    ensures LeftBy(history, j).1 && 0 <= a.readNow - history[j].a.writeNow <= 900
  {
    j := TicketsAreJustified(history, a);
    assert history[j] in history;
  }

  /** No attempt touches a ticket of another pair, and without a proof none touches its own. */
  lemma AttemptsTouchTheirOwn(files: Directory, a: Attempt, caller: Uid, target: Uid)
    ensures var name := Name(caller, target);
            Lookup(AfterAttempt(files, a), name) != Lookup(files, name) ==>
            && a.caller == caller && a.target == Some(target)
            && Mints(files, a) && a.auth == PAM_SUCCESS
            && !a.rule.value.nopass && a.callerName != "root"
  {
    if a.target.Some? {
      NamesDiffer(a.caller, a.target.value, caller, target);
    }
  }
}
