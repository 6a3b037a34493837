/**
 * The PAM library as the authenticator sees it: numbered handles, return codes and a record of the calls. The
 * record also has the moment at which the command is forked off.
 */
module Pam {
  import opened Text

  type ReturnCode = int

  const PAM_SUCCESS: ReturnCode := 0

  datatype Call =
    | Start(h: nat)
    | StartFailed(rc: ReturnCode)
    | Authenticate(h: nat, rc: ReturnCode)
    | Account(h: nat, rc: ReturnCode)
    | Credentials(h: nat, establish: bool, rc: ReturnCode)
    | OpenSession(h: nat, rc: ReturnCode)
    | Forked(h: nat)
    | CloseSession(h: nat, rc: ReturnCode)
    | End(h: nat)

  /** How often the user is asked for a password. */
  function Prompts(said: seq<Call>): nat {
    if said == [] then 0 else (if said[0].Authenticate? then 1 else 0) + Prompts(said[1..])
  }

  /** The call if it is about a session or what runs in it. */
  function SessionCall(call: Call): seq<Call> {
    if call.OpenSession? || call.Forked? || call.CloseSession? then [call] else []
  }

  /** The openings and closings of sessions and the forks, in order. */
  function SessionCalls(said: seq<Call>): seq<Call> {
    if said == [] then [] else SessionCall(said[0]) + SessionCalls(said[1..])
  }

  lemma {:induction false} Joined(a: seq<Call>, b: seq<Call>)
    ensures Prompts(a + b) == Prompts(a) + Prompts(b)
    ensures SessionCalls(a + b) == SessionCalls(a) + SessionCalls(b)
  {
    if a == [] {
      assert a + b == b;
    } else {
      assert (a + b)[1..] == a[1..] + b && (a + b)[0] == a[0];
      Joined(a[1..], b);
      Append(SessionCall(a[0]), SessionCalls(a[1..]), SessionCalls(b));
    }
  }

  lemma {:induction false} JoinedThree(a: seq<Call>, b: seq<Call>, c: seq<Call>)
    ensures Prompts(a + b + c) == Prompts(a) + Prompts(b) + Prompts(c)
    ensures SessionCalls(a + b + c) == SessionCalls(a) + SessionCalls(b) + SessionCalls(c)
  {
    Joined(a, b);
    Joined(a + b, c);
  }

  lemma {:induction false} TwoCalls(x: Call, y: Call)
    ensures Prompts([x, y]) == Prompts([x]) + Prompts([y])
    ensures SessionCalls([x, y]) == SessionCalls([x]) + SessionCalls([y])
  {
    assert [x, y] == [x] + [y];
    Joined([x], [y]);
  }

  lemma {:induction false} ThreeCalls(x: Call, y: Call, z: Call)
    ensures Prompts([x, y, z]) == Prompts([x]) + Prompts([y]) + Prompts([z])
    ensures SessionCalls([x, y, z]) == SessionCalls([x]) + SessionCalls([y]) + SessionCalls([z])
  {
    assert [x, y, z] == [x] + [y, z];
    Joined([x], [y, z]);
    TwoCalls(y, z);
    Append(SessionCalls([x]), SessionCalls([y]), SessionCalls([z]));
  }

  lemma Append(a: seq<Call>, b: seq<Call>, c: seq<Call>)
    ensures (a + b) + c == a + (b + c)
  {
  }

  /**
   * `live` are the handles that were started and not ended, `sessions` the handles whose session was
   * opened and not closed, `calls` all calls in order. Every call but a start demands a live handle, and a
   * fork an open session.
   */
  class Library {
    ghost var live: set<nat>
    ghost var sessions: set<nat>
    ghost var calls: seq<Call>
    var issued: nat

    ghost predicate Valid()
      reads this
    {
      forall h | h in live :: h < issued
    }

    constructor ()
      ensures Valid() && calls == [] && live == {} && sessions == {}
    {
      live, sessions, calls, issued := {}, {}, [], 0;
    }

    /** `pam_start`: a new handle, or none if it fails. */
    method Begin(rc: ReturnCode) returns (handle: Option<nat>)
      requires Valid()
      modifies this
      ensures Valid() && sessions == old(sessions)
      ensures handle == if rc == PAM_SUCCESS then Some(old(issued)) else None
      ensures live == old(live) + if rc == PAM_SUCCESS then {old(issued)} else {}
      ensures rc == PAM_SUCCESS ==> old(issued) !in old(live)
      ensures issued == old(issued) + if rc == PAM_SUCCESS then 1 else 0
      ensures calls == old(calls) + [if rc == PAM_SUCCESS then Start(old(issued)) else StartFailed(rc)]
    {
      if rc == PAM_SUCCESS {
        handle := Some(issued);
        live, calls, issued := live + {issued}, calls + [Start(issued)], issued + 1;
      } else {
        handle, calls := None, calls + [StartFailed(rc)];
      }
    }

    /** Any other call on a handle, or a fork under it. */
    method Invoke(call: Call)
      requires !call.Start? && !call.StartFailed?
      requires Valid() && call.h in live && (call.Forked? ==> call.h in sessions)
      modifies this
      ensures Valid() && issued == old(issued) && calls == old(calls) + [call]
      ensures live == if call.End? then old(live) - {call.h} else old(live)
      ensures sessions == if call.OpenSession? && call.rc == PAM_SUCCESS then old(sessions) + {call.h}
                          else if call.CloseSession? then old(sessions) - {call.h}
                          else old(sessions)
    {
      calls := calls + [call];
      match call {
        case End(h) => live := live - {h};
        case OpenSession(h, rc) => sessions := sessions + if rc == PAM_SUCCESS then {h} else {};
        case CloseSession(h, rc) => sessions := sessions - {h};
        case _ =>
      }
    }
  }
}
