/** Authentication tickets: one file per caller and target, holding the printed time of the proof. */
module Tickets {
  import opened Text
  import opened SecureIo
  import Decimal

  const PERSIST_TTL: nat := 15 // minutes

  /** The name of the ticket of a caller and a target, inside the ticket directory. */
  function Name(caller: Uid, target: Uid): string {
    CallerPrefix(caller) + Decimal.Digits(target)
  }

  function CallerPrefix(caller: Uid): string {
    Decimal.Digits(caller) + "-"
  }

  lemma DashEndsPrefix(a: string, b: string, rest: string)
    requires '-' !in a && '-' !in b && a + "-" <= b + "-" + rest
    ensures a == b
  {
    var name := b + "-" + rest;
    IndexOfUnique(b, '-', rest);
    IndexOfUnique(a, '-', name[|a| + 1..]);
    assert name == a + ['-'] + name[|a| + 1..];
    assert name == b + ['-'] + rest;
    assert a == name[..|a|] && b == name[..|b|];
  }

  /** A name belongs to the caller whose printed id ends at its first dash. */
  lemma PrefixTellsCaller(c: Uid, caller: Uid, target: Uid)
    ensures CallerPrefix(c) <= Name(caller, target) <==> c == caller
  {
    if CallerPrefix(c) <= Name(caller, target) {
      DashEndsPrefix(Decimal.Digits(c), Decimal.Digits(caller), Decimal.Digits(target));
      Decimal.DigitsInjective(c, caller);
    }
  }

  /** Different pairs have different tickets. */
  lemma NamesDiffer(c: Uid, t: Uid, caller: Uid, target: Uid)
    ensures Name(c, t) == Name(caller, target) <==> c == caller && t == target
  {
    if Name(c, t) == Name(caller, target) {
      PrefixTellsCaller(c, caller, target);
      assert Name(c, t)[|CallerPrefix(c)|..] == Decimal.Digits(t);
      assert Name(caller, target)[|CallerPrefix(c)|..] == Decimal.Digits(target);
      Decimal.DigitsInjective(t, target);
    }
  }

  /** The judgement on the text of a ticket at clock reading `now`. */
  predicate Fresh(content: string, now: int, ttl: nat) {
    && content != ""
    && var (epoch, end) := Decimal.Strtoull(CStr(content));
    && end != 0
    && var written := Decimal.ToSigned(epoch);
    && written <= now
    && now - written <= 60 * ttl
  }

  /** A completely written ticket is good for the time to live and not a second longer, never before it was written. */
  lemma CompleteTicket(w: int, now: int, ttl: nat)
    requires Decimal.Int64(w)
    ensures Fresh(Decimal.PrintInt(w), now, ttl) <==> 0 <= now - w <= 60 * ttl
  {
    Decimal.PrintedTimeReadsBack(w);
    PrintedHasNoNul(w);
  }

  lemma PrintedHasNoNul(w: int)
    ensures CStr(Decimal.PrintInt(w)) == Decimal.PrintInt(w)
  {
  }

  /** The time that is read from the first `k` characters of a printed time, if any. */
  function CutTime(w: int, k: nat): Option<int>
    requires k <= |Decimal.PrintInt(w)|
  {
    if w >= 0 then if k == 0 then None else Some(Decimal.Value(Decimal.Digits(w)[..k]))
    else if k <= 1 then None
    else Some(0 - Decimal.Value(Decimal.Digits(-w)[..k - 1]))
  }

  /** A ticket of which `k` characters were written is good for the time to live of the time they spell. */
  lemma CutTicket(w: int, k: nat, now: int, ttl: nat)
    requires Decimal.Int64(w) && k <= |Decimal.PrintInt(w)|
    ensures var t := CutTime(w, k);
            Fresh(Decimal.PrintInt(w)[..k], now, ttl) <==> t.Some? && 0 <= now - t.value <= 60 * ttl
  {
    var cut := Decimal.PrintInt(w)[..k];
    assert NUL !in cut && CStr(cut) == cut by {
      assert !Decimal.Digit(NUL);
    }
    if w >= 0 {
      if k > 0 {
        Decimal.PrefixBounds(w, k);
        Decimal.ReadNonNegative(cut, Decimal.Value(cut));
      }
    } else if k > 1 {
      var digits := Decimal.Digits(-w)[..k - 1];
      assert cut == "-" + digits;
      Decimal.PrefixBounds(-w, k - 1);
      Decimal.ReadNegative(digits, Decimal.Value(digits));
    } else {
      assert cut == "" || cut == "-";
    }
  }

  /** No matter where the write stopped and what the clock says afterwards, the torn ticket is refused. */
  ghost predicate TornIsRefused(w: int) {
    forall k: nat, now: int | k < |Decimal.PrintInt(w)| && now >= w ::
      !Fresh(Decimal.PrintInt(w)[..k], now, PERSIST_TTL)
  }

  lemma TornTicketRefused(w: int, k: nat, now: int)
    requires Decimal.Int64(w) && k < |Decimal.PrintInt(w)| && now >= w
    requires -10 < w < 10 || w > 1000
    ensures !Fresh(Decimal.PrintInt(w)[..k], now, PERSIST_TTL)
  {
    CutTicket(w, k, now, PERSIST_TTL);
    if w >= 0 && k > 0 {
      Decimal.TruncationShrinks(w, k);
    }
  }

  /** A torn ticket is refused exactly for times of one digit and those that lose more than 900 with the last. */
  lemma TornTicket(w: int)
    requires Decimal.Int64(w)
    ensures TornIsRefused(w) <==> -10 < w < 10 || w > 1000
  {
    if -10 < w < 10 || w > 1000 {
      forall k: nat, now: int | k < |Decimal.PrintInt(w)| && now >= w
        ensures !Fresh(Decimal.PrintInt(w)[..k], now, PERSIST_TTL)
      {
        TornTicketRefused(w, k, now);
      }
    } else {
      var k := |Decimal.PrintInt(w)| - 1;
      var t := LastDigitLost(w);
      CutTicket(w, k, if w >= 0 then w else t, PERSIST_TTL);
      assert Fresh(Decimal.PrintInt(w)[..k], if w >= 0 then w else t, PERSIST_TTL);
    }
  }

  lemma LastDigitLost(w: int) returns (t: int)
    requires w <= -10 || w >= 10
    ensures CutTime(w, |Decimal.PrintInt(w)| - 1) == Some(t)
    ensures t == if w >= 0 then w / 10 else 0 - (-w) / 10
  {
    var m := if w >= 0 then w else -w;
    var s := Decimal.Digits(m);
    assert s[..|s| - 1] == Decimal.Digits(m / 10);
    Decimal.ValueOfDigits(m / 10);
    t := if w >= 0 then m / 10 else 0 - m / 10;
  }

  // ---- The directory -------------------------------------------------------------------------

  type Directory = map<string, Node>

  function Lookup(files: Directory, name: string): Option<Node> {
    if name in files then Some(files[name]) else None
  }

  function Stored(files: Directory, name: string, node: Option<Node>): Directory {
    if node.Some? then files[name := node.value] else files
  }

  predicate HasTicket(files: Directory, caller: Uid, target: Uid, now: int, plan: ReadPlan, ttl: nat) {
    var content := ReadBack(Lookup(files, Name(caller, target)), plan);
    content.Ok? && Fresh(content.value, now, ttl)
  }

  /** The directory after `record`, and its answer. */
  function Recorded(files: Directory, caller: Uid, target: Uid, dirOk: bool, now: int, plan: WritePlan)
    : (Directory, bool)
  {
    var name := Name(caller, target);
    var (node, result) := Written(Lookup(files, name), plan, Decimal.PrintInt(now));
    if dirOk then (Stored(files, name, node), result.Ok?) else (files, false)
  }

  /** Only the caller's names go, and only those whose removal does not fail. */
  function WithoutCaller(files: Directory, caller: Uid, isDirectory: bool, stuck: set<string>): Directory {
    map name | name in files && !(isDirectory && CallerPrefix(caller) <= name && name !in stuck) :: files[name]
  }

  function Without(files: Directory, caller: Uid, target: Uid, fails: bool): Directory {
    map name | name in files && (fails || name != Name(caller, target)) :: files[name]
  }

  class TicketStore {
    var files: Directory

    constructor (existing: Directory)
      ensures files == existing
    {
      files := existing;
    }

    /** `valid`. */
    method Valid(caller: Uid, target: Uid, now: int, plan: ReadPlan, ttl: nat := PERSIST_TTL) returns (valid: bool)
      ensures valid <==> HasTicket(files, caller, target, now, plan, ttl)
    {
      var content := ReadFileSecure(Lookup(files, Name(caller, target)), plan);
      if content.Err? || content.value == "" {
        return false;
      }
      var (epoch, end) := Decimal.Strtoull(CStr(content.value));
      if end == 0 {
        return false;
      }
      var written := Decimal.ToSigned(epoch);
      if written > now {
        return false;
      }
      return now - written <= 60 * ttl;
    }

    /** `record`; `dirOk` is the answer of `ensure_private_directory`. */
    method Record(caller: Uid, target: Uid, dirOk: bool, now: int, plan: WritePlan) returns (recorded: bool)
      modifies this
      ensures files == Recorded(old(files), caller, target, dirOk, now, plan).0
      ensures recorded == Recorded(old(files), caller, target, dirOk, now, plan).1
    {
      if !dirOk {
        return false;
      }
      var name := Name(caller, target);
      var node, result := WriteFileSecure(Lookup(files, name), plan, Decimal.PrintInt(now));
      files := Stored(files, name, node);
      recorded := result.Ok?;
    }

    /** `clear`; errors of the removal are ignored. */
    method Clear(caller: Uid, target: Uid, fails: bool)
      modifies this
      ensures files == Without(old(files), caller, target, fails)
    {
      if !fails {
        files := files - {Name(caller, target)};
      }
    }

    /**
     * `clear_all_for_caller`: visit the names in any order and remove the caller's. `stuck` holds the
     * names that are not removed, because removing them fails or the iteration ends early.
     */
    method ClearAllForCaller(caller: Uid, isDirectory: bool, stuck: set<string>)
      modifies this
      ensures files == WithoutCaller(old(files), caller, isDirectory, stuck)
    {
      if !isDirectory {
        return;
      }
      var prefix := CallerPrefix(caller);
      var pending := files.Keys;
      while pending != {}
        invariant pending <= old(files).Keys
        invariant forall name :: name in files <==>
                    name in old(files) && (name in pending || !(prefix <= name && name !in stuck))
        invariant forall name | name in files :: files[name] == old(files)[name]
        decreases pending
      {
        var name :| name in pending;
        pending := pending - {name};
        if prefix <= name && name !in stuck {
          files := files - {name};
        }
      }
    }
  }

  /** `-k` removes all tickets of the caller that can be removed, and no ticket of anyone else. */
  lemma ClearAllIsExact(files: Directory, c: Uid, isDirectory: bool, stuck: set<string>, caller: Uid, target: Uid)
    ensures var name := Name(caller, target);
            Lookup(WithoutCaller(files, c, isDirectory, stuck), name) ==
            if c == caller && isDirectory && name !in stuck then None else Lookup(files, name)
  {
    PrefixTellsCaller(c, caller, target);
  }

  /** Clearing one ticket leaves all others, those of the same caller included. */
  lemma ClearIsExact(files: Directory, c: Uid, t: Uid, fails: bool, caller: Uid, target: Uid)
    ensures Lookup(Without(files, c, t, fails), Name(caller, target)) ==
            if c == caller && t == target && !fails then None else Lookup(files, Name(caller, target))
  {
    NamesDiffer(c, t, caller, target);
  }

  /** The ticket of caller 1000 for root. */
  lemma NameSpelled()
    ensures Name(1000, 0) == "1000-0"
  {
    assert Decimal.Digits(1000) == Decimal.Digits(100) + "0" && Decimal.Digits(100) == Decimal.Digits(10) + "0";
    assert Decimal.Digits(10) == Decimal.Digits(1) + "0" && Decimal.Digits(1) == "1" && Decimal.Digits(0) == "0";
  }

  /** Nothing is in the way of writing the ticket, and the calls take all of it. */
  predicate WritesAll(files: Directory, caller: Uid, target: Uid, dirOk: bool, now: int, plan: WritePlan) {
    var there := Lookup(files, Name(caller, target));
    && dirOk && plan.openError.None? && !plan.statFails && (there.None? || there.value.safe)
    && BytesToWrite(plan.steps) >= |Decimal.PrintInt(now)|
  }

  /** Nothing is in the way of reading the ticket, and the calls give all of it. */
  predicate ReadsAll(w: int, plan: ReadPlan) {
    && plan.openError.None? && !plan.statFails && !plan.seekFails
    && BytesToRead(plan.steps) >= |Decimal.PrintInt(w)|
  }

  /**
   * `record` answers true if and only if nothing was in the way, and then the printed time is in the directory
   * under the pair's name. No other name is concerned in any case, nor anything if the directory is not good.
   */
  lemma RecordedExactly(files: Directory, caller: Uid, target: Uid, dirOk: bool, now: int, plan: WritePlan)
    ensures var (after, recorded) := Recorded(files, caller, target, dirOk, now, plan);
            && (recorded <==> WritesAll(files, caller, target, dirOk, now, plan))
            && (recorded ==> after == files[Name(caller, target) := Node(Decimal.PrintInt(now), true)])
            && (!dirOk ==> after == files)
            && (forall name | name != Name(caller, target) :: Lookup(after, name) == Lookup(files, name))
  {
    var printed := Decimal.PrintInt(now);
    BytesWrittenExactly(|printed|, plan.steps);
    assert printed[..|printed|] == printed;
  }

  /** A recorded ticket is accepted if and only if nothing is in the way of reading it and it has not expired. */
  lemma RecordedIsFound(files: Directory, caller: Uid, target: Uid, dirOk: bool, w: int, write: WritePlan,
                        now: int, read: ReadPlan, ttl: nat)
    requires Decimal.Int64(w) && WritesAll(files, caller, target, dirOk, w, write)
    requires Undisturbed(read.steps, Decimal.PrintInt(w))
    ensures HasTicket(Recorded(files, caller, target, dirOk, w, write).0, caller, target, now, read, ttl) <==>
            ReadsAll(w, read) && 0 <= now - w <= 60 * ttl
  {
    RecordedExactly(files, caller, target, dirOk, w, write);
    UndisturbedReadExactly(Decimal.PrintInt(w), "", read.steps);
    CompleteTicket(w, now, ttl);
  }

  /** Calls that each move something are enough, one for each character. */
  lemma EnoughCalls(files: Directory, caller: Uid, target: Uid, w: int, write: WritePlan, read: ReadPlan)
    requires var there := Lookup(files, Name(caller, target)); there.None? || there.value.safe
    requires write.openError.None? && !write.statFails && WritingCalls(write.steps) >= |Decimal.PrintInt(w)|
    requires read.openError.None? && !read.statFails && !read.seekFails
    requires ReadingCalls(read.steps) >= |Decimal.PrintInt(w)|
    ensures WritesAll(files, caller, target, true, w, write) && ReadsAll(w, read)
  {
    ReadingCallsGive(read.steps);
    ShortTransfersSuffice(|Decimal.PrintInt(w)|, write.steps);
    BytesWrittenExactly(|Decimal.PrintInt(w)|, write.steps);
  }

  // ---- Other texts in a ticket ----------------------------------------------------------------

  /** Whatever is in the file, it is judged by the number it starts with, read as a signed count of 64 bits. */
  lemma AnyNumberIsRead(spaces: string, sign: string, digits: string, rest: string, now: int, ttl: nat)
    requires Decimal.NumberParts(spaces, sign, digits) && Decimal.AllDigits(digits)
    requires NUL !in rest && (rest != "" ==> !Decimal.Digit(rest[0]))
    ensures Fresh(spaces + (sign + (digits + rest)), now, ttl) <==>
            0 <= now - Decimal.ToSigned(Decimal.Wrapped(sign, digits)) <= 60 * ttl
  {
    var text := spaces + (sign + (digits + rest));
    assert NUL !in text by {
      assert forall i | 0 <= i < |digits| :: digits[i] != NUL;
      assert forall i | 0 <= i < |spaces| :: spaces[i] != NUL;
    }
    Decimal.StrtoullFinds(spaces, sign, digits, rest);
  }

  /** And without a number at its start it is refused. */
  lemma NoNumberIsRefused(content: string, now: int, ttl: nat)
    requires Fresh(content, now, ttl)
    ensures exists spaces: string, sign: string, digits: string ::
              Decimal.NumberParts(spaces, sign, digits) && spaces + (sign + digits) <= content
  {
    var s := CStr(content);
    var spaces, sign, digits := Decimal.FoundHasParts(s);
    assert spaces + (sign + digits) <= s <= content;
  }

  lemma TwoBytesRead(text: string)
    requires |text| == 2
    ensures BytesRead(2, "", [ReadUpTo(2, text)]) == Some(text)
  {
    var steps := [ReadUpTo(2, text)];
    assert BytesRead(2, "", steps) == BytesRead(2, "" + text[0..2], steps[1..]);
    assert "" + text[0..2] == text;
  }

  /** Two of the three characters of second 500 get written, and they are accepted as a ticket. */
  lemma TornRecordIsAccepted(caller: Uid, target: Uid, text: string)
    requires text == Decimal.PrintInt(500)[..2]
    ensures var torn := Recorded(map[], caller, target, true, 500, WritePlan(None, false, [Wrote(2)]));
            && !torn.1
            && HasTicket(torn.0, caller, target, 500, ReadPlan(None, false, false, [ReadUpTo(2, text)]), PERSIST_TTL)
  {
    var printed := Decimal.PrintInt(500);
    assert |Decimal.Digits(5)| == 1 && |Decimal.Digits(50)| == 2 && |printed| == 3;
    var plan := WritePlan(None, false, [Wrote(2)]);
    assert BytesWritten(3, plan.steps) == 2 by {
      assert BytesWritten(1, plan.steps[1..]) == 0;
    }
    assert Written(None, plan, printed) == (Some(Node(text, true)), Err(WriteError));
    var files := Recorded(map[], caller, target, true, 500, plan).0;
    assert Lookup(files, Name(caller, target)) == Some(Node(text, true));
    TwoBytesRead(text);
    var t := LastDigitLost(500);
    CutTicket(500, 2, 500, PERSIST_TTL);
  }
}
