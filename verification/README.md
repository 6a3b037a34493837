# Voix in Dafny

Voix runs a command for another user when an ordered rule list permits it, the caller proves who they are,
and the file to be executed can be pinned. This project models those decisions and the loops that carry them
out, and proves what they guarantee for every policy, request, history, file system and schedule.

| file | models |
|---|---|
| `Text.dfy`, `Decimal.dfy` | C strings, joining, `std::to_string`, `strtol`, `strtoull` |
| `Glob.dfy` | argument patterns and their translation to ECMAScript regular expressions |
| `Variables.dfy` | `%u` expansion |
| `Acl.dfy` | rules, one rule against one request, first match |
| `Listing.dfy` | the deny-aware listing of permitted rules, compared with the evaluator |
| `Config.dfy` | one rule as it is loaded |
| `SecureIo.dfy`, `Tickets.dfy` | read and write loops, authentication tickets |
| `Pam.dfy`, `Credentials.dfy` | PAM handles, `PamAuthenticator`, ticket histories |
| `TrustedPath.dfy` | a file system under permission checks, `is_trusted_path` |
| `SearchPath.dfy`, `Executables.dfy` | the search path, pinning, the descriptor table, `fexecve` |
| `Environment.dfy` | filtering, overriding and replaying the environment |
| `ShellQuoting.dfy` | the line given to a login shell, read back by the POSIX token rules |
| `Command.dfy` | security profiles, `Command::execute` with its environment |
| `Runtime.dfy` | `Voix::execute` and a whole process |

Methods follow the statements of the program and are proved against specification functions; the lemmas say
what those functions guarantee. Answers that come from outside (PAM, the clock, the kernel, the user database,
path resolution) are parameters, and nothing is assumed about them unless a `requires` says so.

Some promises the program keeps only under a condition. Five results give such a condition, and exactly:

* `Listing.ListingCompleteExactly`: the listing misses nothing exactly when the caller's name is not empty. The
  program looks its caller up by that very name, so the failing case (`Listing.EmptyNameHidesPermits`) needs a
  passwd entry with an empty name.
* `Tickets.TornTicket`: a half-written ticket is refused, by any clock that does not run back, exactly for times
  between -9 and 9 or above 1000 seconds; `Credentials.TornTicketLetsPass` is a history in which a torn ticket for
  second 500 lets an attempt pass.
* `SearchPath.SplitInvertsJoin`: the directories survive joining and splitting exactly when none contains a
  colon and the last one is not empty (the last entry is lost if it is). The configuration check looks at the
  first character of an entry only, so `/opt:bin` is accepted and makes the relative directory `bin` part of the
  search (`SearchPath.ColonHidesRelative`); `SearchPath.SearchStaysAbsolute` says exactly which accepted lists keep
  the search absolute.
* `Environment.OverrideTakesEffect`: the command sees an override exactly when the caller's filtered environment
  does not repeat the name, or its last entry has the same value, because `set_entry` rewrites the first entry
  and `setenv` lets the last one win. So a caller who repeats PATH escapes the configured search path even on the
  scrubbed tier: with `PATH=/bin` and `PATH=/tmp` the command runs with `/tmp` (`Environment.RepeatedPathSurvives`).
* `ShellQuoting.LoginCommandRoundTrip`: the shell finds the command and its arguments exactly when none holds a
  NUL.

Where documentation and code differ the code is followed. `docs/CLI.md` says that a permit fully covered by an
earlier deny is omitted from the listing; when both rules give different pattern lists of the same length for the
same command and no literal argument tells them apart, the code answers "partially covered" without comparing
them (`Listing.Undecided`; `Listing.UndecidedIsConservative` gives a covered permit that is listed and a disjoint
one that is marked).

The wildcards `*` and `?` do not match line terminators, because they become the `.` of ECMAScript.

`is_trusted_path` looks at a path after cancelling names with the `..` behind them. What it accepts is about that
normal form, and about the path as given if it has no `..` or if each `..` leads back where the path came from
(`TrustedPath.NormalWalk`); `TrustedPath.DotDotLeadsAway` is an accepted path that
leads the kernel over a link to a file of a user.

## Model

| member | source | states |
|---|---|---|
| `Glob.TranslationPreservesMeaning` | src/permission_checker.cpp:94-110 | the text built for a glob is a well-formed pattern (sections 15.10.1 and 15.10.2 of ECMA-262, 3rd edition) and fully matches exactly the texts of the glob, for all patterns and texts |
| `Glob.TranslationParses` | src/permission_checker.cpp:97-108 | that text parses as one alternative with one term for each glob character: nothing is left unescaped and nothing is quantified by accident |
| `Glob.MatchPattern` | src/permission_checker.cpp:94-110 | the loop that builds the text, followed by the full match, decides the language of the glob and never meets a malformed expression |
| `Glob.LiteralLanguage` | src/permission_checker.cpp:94-110 | a pattern without metacharacters matches itself only |
| `Variables.ResolveVariables` | src/permission_checker.cpp:112-121 | replacing inside the string and continuing behind the inserted name ends for every name and equals the single left-to-right expansion |
| `Variables.ExpansionIsPiecewise` | src/permission_checker.cpp:112-121 | every text is variable-free pieces separated by `%u`, and its expansion is the same pieces separated by the name |
| `Variables.ExpansionOfPieces` | src/permission_checker.cpp:112-121 | whatever variable-free pieces a text is made of, names containing `%`, `u` or `%u` are inserted between them and not looked at again |
| `Acl.MatchRule` | src/permission_checker.cpp:123-162 | identity, target, canonical command and argument loops with their early returns decide `RuleMatches`: empty command or arguments mean any, patterns as globs, otherwise equality |
| `Acl.FindPermit` | src/permission_checker.cpp:164-192 | the result is the first rule that matches the canonicalised request, if it permits; none for an unknown caller |
| `Acl.FirstMatch` | src/permission_checker.cpp:181-191 | the position found matches and no earlier rule does; none found means no rule matches |
| `Acl.GrantedExactly` | src/permission_checker.cpp:164-192 | for every policy and request: granted under a rule if and only if the caller is known, the rule permits, it is written for this caller, target, command and arguments, and no rule before it is; whom and what a rule is written for is said in terms of its fields, of numbers in texts and of globs |
| `Acl.MatchMeans` | src/permission_checker.cpp:42-162 | the gates and loops amount to that: a user id goes before a group id and both before a text, a text names an id if it is a number to its end, cut to 32 bits, no target means root, no command any command, no arguments any arguments |
| `Acl.GrantNamesCaller` | src/permission_checker.cpp:64-86 | a granting rule with a user id has the caller's, else one with a group id has one of the caller's groups, else one with a text has a number for the caller's id and no leading percent sign |
| `Acl.PrintedIdNames` | src/permission_checker.cpp:75-80 | the printed id is a text that names it |
| `Listing.NormalizeScope` | src/permission_checker.cpp:195-213 | the scope of a rule: target, canonical command, expanded arguments, pattern flag; none for an unresolvable target |
| `Listing.NormalizeFaithful` | src/permission_checker.cpp:123-213 | a normalised scope accepts exactly the requests the rule matches for a caller it concerns; a rule without a scope matches nothing |
| `Listing.ScopeCoverage` | src/permission_checker.cpp:215-296 | the ten-arm comparison with its argument loops computes `Cover` |
| `Listing.CoverageIsSound` | src/permission_checker.cpp:215-296 | Full: the deny matches every request the permit matches; None: no request matches both; for arbitrary glob arguments in every arm |
| `Listing.PartialIsExact` | src/permission_checker.cpp:224-268 | unless the comparison is undecided (see above), Partial comes with one request that is denied and one that is not |
| `Listing.CoverageIsExact` | src/permission_checker.cpp:215-268 | unless the comparison is undecided, Full and None hold if and only if the requests are all covered or all disjoint |
| `Listing.UndecidedIsConservative` | src/permission_checker.cpp:270-295 | an undecided pair is answered Partial although it may be disjoint, and although it may be fully covered |
| `Listing.ListPermittedEntries` | src/permission_checker.cpp:298-349 | the loops over rules and earlier denies produce the entries of exactly the listed rules, in order, with their marks |
| `Listing.EntriesInOrder` | src/permission_checker.cpp:298-349 | the entries are those of the listed rules, each once, in the order of the configuration |
| `Listing.ListingIsComplete` | src/permission_checker.cpp:298-349 | any rule `permit` returns for any command, arguments and target is in the listing |
| `Listing.FirstMatchIsListed` | src/permission_checker.cpp:298-349 | by position: a suppressed permit is never the first match of any request |
| `Listing.UnconditionalIsHonest` | src/permission_checker.cpp:298-349 | for an entry without the mark, every request its rule matches is let through, whatever the caller is called |
| `Listing.ConditionalIsDeserved` | src/permission_checker.cpp:326-346 | a mark from a decided comparison is backed by an earlier deny that matches some but not all of the rule's requests |
| `Listing.MarkedExactly` | src/permission_checker.cpp:326-346 | a listed permit with decided comparisons is marked if and only if an earlier deny takes one of its requests |
| `Listing.CoveredPermitsAreOmitted` | src/permission_checker.cpp:326-346 | a permit whose requests an earlier deny all matches is not listed unless the comparison of the two is undecided |
| `Listing.ListedIsUsable` | src/permission_checker.cpp:298-349 | a listed rule of a loaded policy whose comparisons are all decided has a request that it matches, that escapes all earlier denies together and that is let through, for every non-empty caller name |
| `Listing.ListedExactly` | src/permission_checker.cpp:298-349 | for loaded policies and decided comparisons a permit is listed if and only if some request it matches is matched by no earlier deny |
| `Listing.LiteralsFallShort` | src/permission_checker.cpp:112-121 | literal arguments of loaded rules never spell all texts of a pattern, not even with metacharacters in the caller's name |
| `Listing.SomethingEscapes` | src/permission_checker.cpp:215-296 | scopes of which none takes all of a permit do not take it all together either: one request escapes each of them, given a text of one pattern that no literal spells |
| `Listing.ListingCompleteExactly` | src/permission_checker.cpp:195-213 | for all policies and requests the listing is complete if and only if the caller's name is not empty |
| `Config.ParseRule` | src/config.cpp:72-147 | the pattern flag is set exactly when an argument has a metacharacter, each option flag exactly when its word occurs, and exactly the rules whose environment entries all have identifier keys are accepted |
| `Config.EnvEntryExactly` | src/config.cpp:102-118 | an environment entry is admitted exactly if a name of ASCII letters, digits and underscores, not starting with a digit, stands before its first equals sign |
| `SecureIo.WriteFileSecure` | src/file_utils.cpp:134-159 | succeeds if and only if opening and `fstat` do, the file is new or safe, and the calls take all of the content, and then the whole content is in the file; a failure after opening leaves a prefix, a proper one unless the content is empty; the old file survives only a failed `open` |
| `SecureIo.ReadFileSecure` | src/file_utils.cpp:90-132 | success has the measured length, comes from a safe file only, and equals the specification for any schedule and any changes in between; a missing file and an unsafe one have their own errors |
| `SecureIo.UndisturbedReadExactly` | src/file_utils.cpp:112-131 | a file nobody changes is read, and completely, if and only if the calls before an empty one give all of it, interruptions aside |
| `SecureIo.ReadsWhatIsSeen` | src/file_utils.cpp:112-131 | whatever others do to the file, each byte read was there, at its place, when some call read it |
| `SecureIo.WriteThenRead` | src/file_utils.cpp:90-159 | a successful write and a successful undisturbed read return the same bytes |
| `SecureIo.BytesWrittenExactly` | src/file_utils.cpp:147-156 | the loop writes what the calls take, up to the length of the content |
| `SecureIo.ShortTransfersSuffice` | src/file_utils.cpp:147-156 | interruptions and short writes alone never make a write fail |
| `SecureIo.ShortReadsSuffice` | src/file_utils.cpp:112-131 | as many reading calls as there are bytes read all of an undisturbed file |
| `SecureIo.OpenErrors` | src/file_utils.cpp:48-54 | what each error of `open` becomes, and that a failed `open` leaves the file alone |
| `Decimal.PrintedTimeReadsBack` | src/ticket_store.cpp:32-38 | printing a 64-bit time and parsing it with `strtoull` and the conversion to signed returns it, negative times included |
| `Decimal.StrtolWhole` | src/permission_checker.cpp:50-53 | `strtol` reaches the end exactly of texts that are white space, a sign or none, and digits, and gives the number or the nearest 64-bit limit |
| `Decimal.StrtoullFinds` | src/ticket_store.cpp:32-35 | `strtoull` finds the number at the start of any text, modulo 2^64 for a minus sign and saturated above |
| `Tickets.CompleteTicket` | src/ticket_store.cpp:26-42 | a completely written ticket is accepted exactly when 0 <= now - w <= 60 * ttl |
| `Tickets.CutTicket` | src/ticket_store.cpp:26-42 | a ticket of which any number of characters was written is accepted exactly when those characters spell a time t with 0 <= now - t <= 60 * ttl |
| `Tickets.TornTicket` | src/ticket_store.cpp:26-53 | for every 64-bit time w, negative ones included: all proper prefixes of the printed time are refused at every clock reading >= w if and only if -10 < w < 10 or w > 1000 |
| `Tickets.NamesDiffer` | src/ticket_store.cpp:20-24 | `path_for` is injective on pairs of 32-bit ids |
| `Tickets.NameSpelled` | src/ticket_store.cpp:20-24 | the ticket of caller 1000 for root is called `1000-0` |
| `Tickets.PrefixTellsCaller` | src/ticket_store.cpp:60-73 | the printed id and a dash start a ticket name if and only if the ticket is that caller's |
| `Tickets.ClearAllIsExact` | src/ticket_store.cpp:60-73 | `-k` removes all tickets of the caller that can be removed and keeps every other caller's |
| `Tickets.ClearIsExact` | src/ticket_store.cpp:55-58 | clearing one ticket keeps all others |
| `Tickets.TicketStore.Valid` | src/ticket_store.cpp:26-42 | decides `HasTicket`: readable, digits, not in the future, not older than the time to live |
| `Tickets.TicketStore.Record` | src/ticket_store.cpp:44-53 | the new directory holds what the write left under the pair's name and is otherwise unchanged |
| `Tickets.RecordedExactly` | src/ticket_store.cpp:44-53 | `record` answers true if and only if directory, `open`, `fstat` and the file found are good and the calls take all of the printed time, and then that text is in the directory under the pair's name; no other name is concerned |
| `Tickets.TicketStore.Clear` | src/ticket_store.cpp:55-58 | removes the ticket of that pair unless the removal fails, and nothing else |
| `Tickets.TicketStore.ClearAllForCaller` | src/ticket_store.cpp:60-73 | visiting the names in any order removes exactly the caller's that do not resist removal |
| `Tickets.RecordedIsFound` | src/ticket_store.cpp:26-53 | a ticket of which all was written is found if and only if nothing is in the way of reading all of it and it is at most the time to live old and not in the future |
| `Tickets.EnoughCalls` | src/ticket_store.cpp:26-53 | a writing and a reading call for each character are enough for both |
| `Tickets.AnyNumberIsRead` | src/ticket_store.cpp:32-42 | whatever text is in a ticket, it is judged by the number it starts with, as a signed 64-bit time |
| `Tickets.NoNumberIsRefused` | src/ticket_store.cpp:32-35 | a text that does not start with a number is refused |
| `Credentials.PamAuthenticator.Authenticate` | src/authenticator.cpp:94-205 | passes exactly if `Passes`, leaves exactly the files of `AfterAttempt`, appends exactly the calls of `Said`, in their order and number, to what was said to PAM, and says which handle is left |
| `Credentials.SaidCalls` | src/authenticator.cpp:94-205 | in those calls no session is opened or closed, and the password is asked for exactly once if nothing (trust rule, root, valid ticket) excuses the caller and asking is not forbidden, and otherwise never |
| `Credentials.PamAuthenticator.ValidateTargetAccount` | src/authenticator.cpp:68-90 | its exact calls: a handle of its own, asked for the account only and ended on every path |
| `Credentials.PamAuthenticator.OpenSession` | src/authenticator.cpp:207-225 | its exact calls: credentials are established first and the session is opened only after that succeeded; it counts as open exactly if both answers are good |
| `Credentials.PamAuthenticator.CloseSession` | src/authenticator.cpp:227-242 | its exact calls: session closed, credentials deleted, handle ended, whatever PAM answers |
| `Credentials.SessionPart` | src/authenticator.cpp:207-242 | opening makes one call for a session at most and closing exactly one |
| `Pam.Library.Invoke` | src/authenticator.cpp:125-242 | every call demands a handle that is live, so no verified caller uses or ends a handle after its end, and a fork demands an open session; each is appended to the record |
| `Credentials.AnyLifetime` | src/authenticator.cpp:30-242 | for every sequence of calls and return codes no handle is live after destruction |
| `Credentials.TicketsAreJustified` | src/authenticator.cpp:94-205 | in every history of attempts, clears and `-k` by anyone, an attempt that passes by a ticket has an earlier attempt for the same pair that gave a real proof under a persist rule with both accounts in order; nothing removed its ticket since, and the time spelled by the characters written is 0 to 900 seconds ago; a ticket written in full spells the time of the proof, a torn one is used only with the clock gone back or before second 1001 |
| `Credentials.TicketsAreFresh` | src/authenticator.cpp:94-205 | with a clock past 1000 seconds that never goes back, the ticket was written in full and 0 <= now - w <= 900 |
| `Credentials.ProofIsRemembered` | src/authenticator.cpp:94-205 | in every history: for 900 seconds after a proof whose ticket was written in full, and not a second longer, an attempt of the same pair under a persist rule needs no password, unless the ticket was removed or replaced in between |
| `Credentials.TicketLasts` | src/ticket_store.cpp:44-73 | events that neither remove nor replace a ticket leave it as it was written, in every history |
| `Credentials.RemovalIsExact` | src/ticket_store.cpp:55-73 | a clear or `-k` takes away exactly the tickets it is for |
| `Credentials.TornTicketLetsPass` | src/authenticator.cpp:110-200 | a concrete history in which a ticket that was not written in full lets the next attempt pass without a proof |
| `Credentials.TicketHasOrigin` | src/authenticator.cpp:189-200 | every ticket in the directory was written by a justified attempt of its own pair and not removed since |
| `Credentials.AttemptsTouchTheirOwn` | src/authenticator.cpp:189-200 | an attempt changes no ticket but its own pair's, and that one only after a real proof; skips and reuse change nothing |
| `TrustedPath.IsTrustedPath` | src/file_utils.cpp:304-345 | accepts exactly the absolute paths whose components after lexical normalisation are all acceptable, each in the file system of the moment it is looked at |
| `TrustedPath.NormalIsPlain` | src/file_utils.cpp:311 | the normal form of an absolute path has no `.` and no `..`, and an empty component at the end only |
| `TrustedPath.NormalWalk` | src/file_utils.cpp:311 | the path as given and its normal form lead the kernel to the same inode wherever the names before a `..` are directories and the `..` leads back to the directory before, or stays at the root |
| `TrustedPath.NameAndDotsCancel` | src/file_utils.cpp:311 | a name and the `..` right after it cancel, anywhere in a path |
| `TrustedPath.RootHasNoParent` | src/file_utils.cpp:311 | a `..` at the root is dropped |
| `TrustedPath.RunKeepsProtected` | src/file_utils.cpp:326-341 | no sequence of steps by unprivileged users changes an inode that is root-owned and not group or world writable |
| `TrustedPath.TrustedPathStays` | src/file_utils.cpp:304-345 | with users acting between any two looks and forever after, the normal form of any accepted path, `/` included, keeps reaching one inode below a protected root without following a link, with owner, mode and content unchanged; so does the path as given, dots and repeated slashes included, if it has no `..` |
| `TrustedPath.DotDotLeadsAway` | src/file_utils.cpp:304-345 | with `..` the path as given may lead elsewhere: for all names x and b there is a file system in which `/x/../b` is accepted and the kernel reaches a file of a user |
| `TrustedPath.TrustedExactly` | src/file_utils.cpp:304-345 | in a file system at rest the accepted paths are exactly those whose normal form leads over protected inodes only, no links, and directories before the last |
| `SearchPath.GetPath` | src/config.cpp:377-383 | the fold joins the entries with colons |
| `SearchPath.SplitInvertsJoin` | src/config.cpp:377-383 | splitting as `getline` does returns the list if and only if no entry has a colon and the last is not empty |
| `SearchPath.SearchStaysAbsolute` | src/config.cpp:436-441 | for entries that pass the check of their first character, all directories searched are absolute if and only if no entry has a colon followed by anything but a slash or a colon |
| `SearchPath.ColonHidesRelative` | src/config.cpp:436-441 | `/opt:bin` passes the check and makes `bin` one of the directories searched |
| `SearchPath.SearchedDirectories` | src/file_utils.cpp:255-258 | the directories searched are the non-empty entries of a colon-free list, in order |
| `Executables.ResolveExecutable` | src/file_utils.cpp:184-268 | a bare name gives the earliest directory whose candidate passes all checks, otherwise the first error that is not NotFound, otherwise NotFound; any result passed the checks |
| `Executables.CandidateExactly` | src/file_utils.cpp:195-241 | a candidate is accepted if and only if its real path and status are known and it is regular, of the owner, not writable by others and executable; each failure has its error |
| `Executables.UnfitIsRefused` | src/file_utils.cpp:204-250 | a command given by a path whose file fails one of the four checks is answered PermissionDenied |
| `Executables.InDirectoryExactly` | src/file_utils.cpp:259 | the candidate for a name is that name in that directory |
| `Executables.SearchDirectories` | src/file_utils.cpp:254-267 | the loop with its remembered error computes that result |
| `Executables.FirstRealErrorExactly` | src/file_utils.cpp:254-267 | the error remembered is that of the earliest directory that fails otherwise than by not having the file |
| `Executables.Descriptors.OpenExecutable` | src/file_utils.cpp:270-297 | succeeds if and only if the path still opens as the validated file, fit to be executed, and `fstat` works, and then holds a descriptor of it; otherwise the table is as it was and the error is the one of the first step that failed |
| `Executables.PinExecutable` | src/command.cpp:71-102 | succeeds if and only if there is a file to execute (the command, or the target's shell if it passes the checks) and it opens as the validated one |
| `Executables.Descriptors.ScrubDescriptors` | src/command.cpp:374-431 | the whole new table on both tiers: the executable at 3, what is closed, what stays; without `close_range` what is below the limit, 65536 at most, or below 4096 if there is none |
| `Executables.PrepareDescriptors` | src/command.cpp:374-431 | succeeds if and only if `dup2` (when needed) and `fcntl` do; the descriptor then holds the pinned file and survives the exec; what else is left on the restricted tier |
| `Executables.Execute` | src/command.cpp:67-160 | forks inside an open session and exactly if the file was pinned and signals could be blocked; reaches `fexecve` if and only if no later stage fails, then with a descriptor of the file that was validated, whatever happened to the paths; on the restricted tier it is 3 and alone above 2 if and only if `close_range` works or all inherited descriptors lie below the bound; the argument vector carries the command and its arguments, for a login shell in a line that reads back as them |
| `Executables.LaunchedIsFit` | src/command.cpp:67-102 | the file executed is regular, root's, not writable by others, executable and of the validated identity at the moment it is opened; it is the command itself or what the path of the target's shell led to |
| `Executables.DefaultShell` | src/command.cpp:78-79 | a target without a shell gets `/bin/sh` |
| `Environment.SanitizeEnvironment` | src/command.cpp:221-262 | the loop keeps, in order, exactly the decodable entries whose name passes the tier |
| `Environment.TiersOrdered` | src/command.cpp:221-262 | scrubbed output is a subsequence of keepenv output and that of the full one |
| `Environment.FilterIdempotent` | src/command.cpp:221-262 | filtering the re-encoded output again changes nothing |
| `Environment.BuildEnvironment` | src/command.cpp:310-360 | the in-place updates amount to setting the list of overrides in order |
| `Environment.ApplyEnvironment` | src/command.cpp:362-372 | the process environment is the replay of that list |
| `Environment.WithEntryLast` | src/command.cpp:321-330 | after `set_entry` the last entry of the name has the new value if the name was on the list once at most and is unchanged otherwise; other names are not concerned |
| `Environment.ReplayedLookup` | src/command.cpp:366-371 | `clearenv` and the `setenv` loop give each name the value of its last entry, and never set the empty name |
| `Environment.EnvironmentByName` | src/command.cpp:310-372 | for every name: the last administrator entry, else the imposed PATH (scrubbed tier), USER, LOGNAME, HOME or SHELL, else the caller's last value if the tier lets the name pass; a name the caller repeats keeps the caller's last value |
| `Environment.KeepenvExactly` | src/command.cpp:221-372 | on keepenv the seven names and what starts with one of the seven prefixes are the override's or nothing, and every other name is the override's or the caller's |
| `Environment.ScrubbedExactly` | src/command.cpp:221-372 | on the scrubbed tier of the caller only TERM, DISPLAY, XAUTHORITY and LANG arrive, and PATH only if it is repeated |
| `Environment.UnfilteredExactly` | src/command.cpp:221-372 | without a filter every name is the override's or the caller's |
| `Environment.LastValueExactly` | src/command.cpp:244-262 | a name's value in a raw environment is what follows its equals sign in its last entry |
| `Environment.CountExactly` | src/command.cpp:244-262 | a name is repeated exactly if two raw entries start with it and an equals sign |
| `Environment.OverrideExactly` | src/command.cpp:331-357 | what is put over each name: the administrator's last entry, else the target's name, home or shell, or the search path |
| `Environment.OverrideTakesEffect` | src/command.cpp:321-372 | the exact condition under which an override is what the command sees; it covers all callers with distinct names |
| `Environment.RepeatedNameSurvives` | src/command.cpp:321-372 | on every tier a name that passes it and that the caller sets twice keeps the caller's second value, against any override |
| `Environment.RepeatedPathSurvives` | src/command.cpp:221-372 | with PATH twice in the caller's environment the command of the scrubbed tier gets the second one |
| `Environment.NonInterference` | src/command.cpp:221-372 | on every tier callers that repeat no passing name with an override and agree on the passing names without one get the same environment |
| `Environment.ScrubbedAlike` | src/command.cpp:221-262 | on the scrubbed tier it is enough that PATH is not repeated, that TERM, DISPLAY, XAUTHORITY and LANG agree, and that none of them is repeated if it has an override |
| `ShellQuoting.Escape` | src/command.cpp:476-486 | the loop quotes one word |
| `ShellQuoting.FullCommand` | src/command.cpp:515-518 | the loop builds the quoted words with blanks between them |
| `ShellQuoting.QuotingRoundTrip` | src/command.cpp:476-518 | the token rules (sections 2.2.1, 2.2.2 and 2.3 of POSIX.1-2017 XCU) give back exactly the words, for every list, empty words and quotes included |
| `ShellQuoting.LoginCommandRoundTrip` | src/command.cpp:515-521 | the C string the shell receives reads back as the command and arguments if and only if none has a NUL; otherwise it ends in an open quote |
| `Command.Execute` | src/command.cpp:67-160 | the command gets the environment of its tier, and is forked, launched and given its descriptor and arguments exactly as `Executables.Execute` says, restricted if and only if the profile in force gives up capabilities |
| `Command.ProfileExactly` | src/command.cpp:39-65 | which profile is in force for named, unnamed and unknown profiles and for unconfined targets |
| `Runtime.Execute` | src/voix.cpp:82-236 | the executable is the one `resolve_executable` may give; without a rule for that very executable, arguments and target nothing is said, written or run; with one the tickets and the record of PAM calls and forks are exactly those of an attempt under it followed by `Conversation`; a run that finished has launched the checked file, in that rule's environment, if and only if it could be chosen and opened and no stage failed |
| `Runtime.RunMeans` | src/voix.cpp:82-236 | a command that runs was found as a regular executable of root's that others may not write, was granted by the first rule written for this caller, command, arguments and target, and is executed as that very file with exactly those arguments, or by the target's shell on a line that reads as them if a login shell is asked for or configured |
| `Runtime.RefusedBeforehand` | src/voix.cpp:94-145 | destructive commands, unknown targets and unknown callers are refused with nothing said, written or opened |
| `Runtime.EntersExactly` | src/voix.cpp:175-195 | a session is opened if and only if the very rule that was granted, root or a valid ticket excuses the caller or a proof was given, and every answer of PAM is good |
| `Runtime.ChangesTicketsExactly` | src/authenticator.cpp:189-200 | a run changes a ticket only after a proof under a persist rule that does not do without one |
| `Runtime.Authorize` | src/voix.cpp:82-173 | the rule is `Grant`: first match for the file that was found, none for destructive commands and unknown targets |
| `Runtime.ConfiguredSearch` | src/voix.cpp:94-96 | for colon-free entries a bare name is searched in exactly the non-empty configured directories, in order |
| `Runtime.ConversationCalls` | src/voix.cpp:175-236 | in the record of a run a session that was opened is closed exactly once, later and on the same handle, the command is forked between the two, once if at all and never without a session, one that was not opened is never closed, and the password is asked for once if the attempt prompts |
| `Runtime.WholeConversation` | src/voix.cpp:175-236 | the whole record of a run with a session: any proof, the caller's account, the target's account on a second handle, credentials, session, fork, and the closing calls, each once and in this order |
| `Runtime.StartCommand` | src/voix.cpp:197-221 | the fork is recorded under the open session exactly if the run gets that far, and the command is launched exactly as the rule grants it |
| `Runtime.RunSession` | src/voix.cpp:197-236 | from an open session on every path, exceptions included, appends exactly the fork, if there is one, and then the closing calls, and leaves no session and no handle |
| `Runtime.NothingElseGetsThrough` | src/voix.cpp:199-206 | callers that the tier under the rule and the profile cannot tell apart get the same environment, with `-E` or without |
| `Runtime.DangerousNeverArrive` | src/command.cpp:237-255 | short of a grant of the whole environment no rule, profile or option lets one of the dangerous names through from the caller |
| `Runtime.IdentityArrives` | src/command.cpp:331-345 | USER, LOGNAME, HOME, SHELL and the scrubbed PATH are the target's and the configuration's, unless the administrator sets or the caller repeats them |
| `Runtime.TierExactly` | src/voix.cpp:199-206 | the environment is kept exactly by `keepenv` of the rule or a profile that does not scrub |
| `Runtime.DefaultLetsFourThrough` | src/voix.cpp:199-206 | without a profile of the administrator's, an unconfined target or `keepenv`, agreement on TERM, DISPLAY, XAUTHORITY and LANG is enough if PATH and overridden names are not repeated |
| `Runtime.Lifetime` | src/voix.cpp:59-80 | from construction to destruction, on the tickets `-k` left: the account of `Runtime.Execute`, then the end of a handle that was left; no handle and no session outlives a process; among all its calls one password is asked for at most, and a command that was launched was forked between the opening and the closing of its session |
| `Runtime.ClearedAtStart` | src/voix.cpp:73-75 | after `-k` the run finds no ticket of its caller and everyone else's as they were |

## Left out

- YAML loading, option parsing, printing, logging, audit records, exit codes and message texts.
- Capabilities, seccomp, resource limits, signal masks, `fork` itself and the change of ids: stages of the child
  that can only end it are one flag.
- Canonicalisation of commands for the rules is one uninterpreted function; it is only assumed that exactly the
  empty command has an empty path. The policy path of an executable is likewise an answer of the moment.
- The built-in and configured lists of destructive commands: their verdict is an input of `Runtime.Execute`.
- PAM conversations, `passwd`, group and shadow look-ups: arbitrary answers. A failed `pam_start` leaves no handle.
- Regular expressions: groups, classes, counted quantifiers and named escapes are outside the parser, which
  answers None for them; the translation never produces them. A backslash before `$` is read as a literal, as
  implementations do although the third edition's grammar does not list it. Resource errors of `std::regex` are
  not modelled. Characters are Unicode scalar values; on bytes only LF and CR are line terminators.
- Loops that never end because every call is interrupted: schedules are finite and end in a hard error.
- Calls on the ticket directory follow each other; two processes inside `record` and `valid` at the same time are
  not interleaved. A clock reading is a 64-bit count; the subtraction of two readings does not overflow.
- Sticky bits, ACLs, mounts, capabilities, open writable descriptors and reuse of inode numbers in the file system.
- TrustedPath.IsTrustedPath: has no branch for a `.` component, because normalisation leaves none
  (`TrustedPath.NormalIsPlain`).
- Executables.Descriptors.ScrubDescriptors: with a descriptor limit below 4 the fallback loop of the program has
  an empty or undefined range; here it is empty.
- The shell's token rules reject every character outside quotes that would be an operator, an expansion, a
  pattern, a comment, an assignment or a reserved word, instead of interpreting it.
- The `KEY=VALUE` texts of the environment are read up to their first equals sign; `setenv` is assumed to fail
  only for an empty name.
