/** The socket server's process-wide session table and its event handlers. Each method is one
    handler, run to completion (the event loop never interleaves two of them). Socket ids, poll
    ids and session codes are parameters; a handler's `Success(true)` says that it emits
    `pollSessionUpdate` to the session's room, and `Failure(TypeError)` that it throws. */
module PollServer {
  import opened Wrappers
  import opened JsValues
  import opened PollModel

  /** What `joinPollSession` emits back to the joining socket. */
  datatype JoinReply = Joined(session: Session) | JoinError(message: string)

  /** A timer armed by `startPoll`: the session code and the poll object it closes over, and
      the delay in milliseconds passed to `setTimeout` (`timeLimit * 1000`). */
  datatype Timer = Timer(code: string, inst: nat, delayMs: JsNumber)

  /** The largest delay Node's `setTimeout` accepts, 2^31 - 1 milliseconds. */
  const TimeoutMax: real := 2147483647.0

  /** The delay Node waits for a `setTimeout` argument: one below 1 ms or above `TimeoutMax`,
      an infinity and NaN all become 1 ms. */
  function EffectiveDelay(d: JsNumber): (ms: real)
    ensures 1.0 <= ms <= TimeoutMax
    ensures d.Finite? && 1.0 <= d.value <= TimeoutMax ==> ms == d.value
    ensures !(d.Finite? && 1.0 <= d.value <= TimeoutMax) ==> ms == 1.0
  {
    if d.Finite? && 1.0 <= d.value <= TimeoutMax then d.value else 1.0
  }

  /** The wait of a poll's timer: its limit in milliseconds when that lies between 1 ms and
      about 24.8 days, and otherwise (a negative, tiny, huge or infinite limit) 1 ms, so the
      poll ends almost at once. */
  lemma TimerDelayOfLimit(limit: JsNumber)
    ensures var ms := EffectiveDelay(Scale(limit, 1000.0));
      && (limit.Finite? && 1.0 <= limit.value * 1000.0 <= TimeoutMax ==> ms == limit.value * 1000.0)
      && (!(limit.Finite? && 1.0 <= limit.value * 1000.0 <= TimeoutMax) ==> ms == 1.0)
  {
  }

  /** What `Math.random().toString(36).substring(2, 8).toUpperCase()` can produce: at most six
      characters, each a digit or an upper-case letter. */
  predicate IsSessionCode(code: string)
  {
    |code| <= 6 && forall i :: 0 <= i < |code| ==> '0' <= code[i] <= '9' || 'A' <= code[i] <= 'Z'
  }

  /** A generated code never names a member of `Object.prototype`, so a stored session never
      shadows one and an inherited member is never overwritten. */
  lemma SessionCodeNotInherited(code: string)
    requires IsSessionCode(code)
    ensures code !in ProtoMembers
  {
  }

  /** Every poll object in the session was allocated before `next`. */
  predicate InstsBelow(s: Session, next: nat)
  {
    forall j :: 0 <= j < |s.polls| ==> s.polls[j].inst < next
  }

  /** The poll objects that leave the session table (replaced, filtered out, or dropped with
      an overwritten session) go on existing for the timers that close over them; this is the
      table of their active flags after `ps` leave: each keeps the flag it had when it left,
      and every object that left before keeps its own. */
  function Detach(d: map<nat, bool>, ps: seq<Poll>): (r: map<nat, bool>)
    ensures r.Keys == d.Keys + Insts(ps)
    ensures forall i :: i in d && i !in Insts(ps) ==> r[i] == d[i]
    ensures DistinctInsts(ps) ==> forall j :: 0 <= j < |ps| ==> r[ps[j].inst] == ps[j].isActive
    decreases |ps|
  {
    if ps == [] then d
    else
      var r := Detach(d[ps[0].inst := ps[0].isActive], ps[1..]);
      assert DistinctInsts(ps) ==> DistinctInsts(ps[1..]) && ps[0].inst !in Insts(ps[1..]);
      r
  }

  /** The identities of the poll objects in `ps`. */
  function Insts(ps: seq<Poll>): (r: set<nat>)
    ensures forall j :: 0 <= j < |ps| ==> ps[j].inst in r
    ensures forall i :: i in r ==> exists j :: 0 <= j < |ps| && ps[j].inst == i
  {
    if ps == [] then {} else {ps[0].inst} + Insts(ps[1..])
  }

  /** `Object.values` of a map whose entries carry their own key as `code`. */
  method ValuesOf(m: map<string, Session>) returns (list: seq<Session>)
    requires forall c :: c in m ==> m[c].code == c
    ensures |list| == |m|
    ensures forall c :: c in m ==> m[c] in list
    ensures forall i :: 0 <= i < |list| ==> list[i].code in m && m[list[i].code] == list[i]
    ensures forall i, j :: 0 <= i < j < |list| ==> list[i].code != list[j].code
  {
    list := [];
    var keys := m.Keys;
    assert |keys| == |m|;
    while keys != {}
      invariant keys <= m.Keys
      invariant |list| + |keys| == |m|
      invariant forall c :: c in m && c !in keys ==> m[c] in list
      invariant forall i :: 0 <= i < |list| ==> list[i].code in m && list[i].code !in keys && m[list[i].code] == list[i]
      invariant forall i, j :: 0 <= i < j < |list| ==> list[i].code != list[j].code
      decreases |keys|
    {
      var c :| c in keys;
      list := list + [m[c]];
      keys := keys - {c};
    }
  }

  class PollStore {
    /** `pollSessions`: code to session. */
    var sessions: map<string, Session>
    /** Identity the next poll object allocated will get. */
    var nextInst: nat
    /** The active flags of the poll objects no longer in the table, by identity. */
    var detached: map<nat, bool>

    ghost predicate Valid()
      reads this
    {
      && (forall c :: c in sessions ==>
            && c !in ProtoMembers && sessions[c].code == c
            && SessionValid(sessions[c]) && InstsBelow(sessions[c], nextInst))
      && (forall i :: i in detached ==> i < nextInst)
    }

    constructor ()
      ensures Valid() && sessions == map[] && nextInst == 0 && detached == map[]
    {
      sessions := map[];
      nextInst := 0;
      detached := map[];
    }

    /** Replacing the session under `code` by a valid one keeps the table valid. */
    method Store(code: string, s: Session)
      requires Valid() && code !in ProtoMembers
      requires s.code == code && SessionValid(s) && InstsBelow(s, nextInst)
      modifies this
      ensures Valid()
      ensures sessions == old(sessions)[code := s] && nextInst == old(nextInst)
      ensures detached == old(detached)
    {
      sessions := sessions[code := s];
    }

    /** The objects leaving the table were allocated before `nextInst`, so the detached table
        stays below it. */
    method Release(ps: seq<Poll>)
      requires Valid() && forall j :: 0 <= j < |ps| ==> ps[j].inst < nextInst
      modifies this
      ensures Valid()
      ensures detached == Detach(old(detached), ps)
      ensures sessions == old(sessions) && nextInst == old(nextInst)
    {
      detached := Detach(detached, ps);
    }

    /** createPollSession: stores an empty session under the code, replacing any session that
        already has it (no collision check, no retry); the polls of a replaced session leave
        the table. */
    method CreatePollSession(code: string)
      requires Valid() && IsSessionCode(code)
      modifies this
      ensures Valid()
      ensures sessions == old(sessions)[code := NewSession(code)]
      ensures nextInst == old(nextInst)
      ensures detached == if code in old(sessions)
        then Detach(old(detached), old(sessions)[code].polls)
        else old(detached)
    {
      SessionCodeNotInherited(code);
      if code in sessions {
        Release(sessions[code].polls);
      }
      Store(code, NewSession(code));
    }

    /** joinPollSession: adds the socket to the session's participants, or replies with an error
        and changes nothing when there is no such session; a code naming an inherited member
        finds that member, which has no participants, and the handler throws. */
    method JoinPollSession(participant: string, code: string) returns (r: Result<JoinReply, JsError>)
      requires Valid()
      modifies this
      ensures Valid() && nextInst == old(nextInst) && detached == old(detached)
      ensures r == Failure(TypeError) <==> code in ProtoMembers
      ensures code !in old(sessions) ==> sessions == old(sessions)
      ensures code !in old(sessions) && code !in ProtoMembers ==>
        r == Success(JoinError("Invalid poll code"))
      ensures code in old(sessions) ==>
        sessions == old(sessions)[code := Join(old(sessions)[code], participant)]
        && r == Success(Joined(sessions[code]))
    {
      if code in sessions {
        var session := sessions[code];
        Store(code, Join(session, participant));
        r := Success(Joined(sessions[code]));
      } else if code in ProtoMembers {
        r := Failure(TypeError);
      } else {
        r := Success(JoinError("Invalid poll code"));
      }
    }

    /** createPoll: appends a fresh inactive poll with no votes; no-op on an unknown code,
        throws on an inherited member's name (it has no `polls`). */
    method CreatePoll(code: string, pollId: string, question: string, options: seq<string>, timeLimit: Option<JsNumber>)
      returns (r: Result<bool, JsError>)
      requires Valid()
      modifies this
      ensures Valid() && detached == old(detached)
      ensures r == Failure(TypeError) <==> code in ProtoMembers
      ensures r == Success(true) <==> code in old(sessions)
      ensures code !in old(sessions) ==> sessions == old(sessions) && nextInst == old(nextInst)
      ensures code in old(sessions) ==>
        && sessions == old(sessions)[code := AddPoll(old(sessions)[code],
             NewPoll(old(nextInst), pollId, question, options, timeLimit))]
        && nextInst == old(nextInst) + 1
    {
      if code in sessions {
        var session := sessions[code];
        var poll := NewPoll(nextInst, pollId, question, options, timeLimit);
        nextInst := nextInst + 1;
        Store(code, AddPoll(session, poll));
        r := Success(true);
      } else if code in ProtoMembers {
        r := Failure(TypeError);
      } else {
        r := Success(false);
      }
    }

    /** updatePoll: replaces the poll found by id with a new object carrying the new question,
        options and time limit, and the old object leaves the table; unknown code or id: no
        change, no broadcast; an inherited member's name: throws. */
    method UpdatePoll(code: string, pollId: string, question: string, options: seq<string>, timeLimit: Option<JsNumber>)
      returns (r: Result<bool, JsError>)
      requires Valid()
      modifies this
      ensures Valid()
      ensures r == Failure(TypeError) <==> code in ProtoMembers
      ensures r == Success(true) <==> code in old(sessions) && 0 <= FindIndex(old(sessions)[code].polls, pollId)
      ensures r != Success(true) ==>
        sessions == old(sessions) && nextInst == old(nextInst) && detached == old(detached)
      ensures r == Success(true) ==>
        var s := old(sessions)[code];
        && sessions == old(sessions)[code := PollModel.UpdatePoll(s, pollId,
             old(nextInst), question, options, timeLimit)]
        && nextInst == old(nextInst) + 1
        && detached == Detach(old(detached), [s.polls[FindIndex(s.polls, pollId)]])
    {
      if code in sessions {
        var session := sessions[code];
        var i := FindIndex(session.polls, pollId);
        if i != -1 {
          var updated := PollModel.UpdatePoll(session, pollId, nextInst, question, options, timeLimit);
          Release([session.polls[i]]);
          nextInst := nextInst + 1;
          Store(code, updated);
          r := Success(true);
        } else {
          r := Success(false);
        }
      } else if code in ProtoMembers {
        r := Failure(TypeError);
      } else {
        r := Success(false);
      }
    }

    /** deletePoll: filters the polls with that id out of the table and clamps the current
        index; it broadcasts whenever the session exists, even when nothing was removed; an
        inherited member's name: throws. */
    method DeletePoll(code: string, pollId: string) returns (r: Result<bool, JsError>)
      requires Valid()
      modifies this
      ensures Valid() && nextInst == old(nextInst)
      ensures r == Failure(TypeError) <==> code in ProtoMembers
      ensures r == Success(true) <==> code in old(sessions)
      ensures sessions == if code in old(sessions)
        then old(sessions)[code := PollModel.DeletePoll(old(sessions)[code], pollId)]
        else old(sessions)
      ensures detached == if code in old(sessions)
        then Detach(old(detached), Matching(old(sessions)[code].polls, pollId))
        else old(detached)
    {
      if code in sessions {
        var session := sessions[code];
        var remaining := Without(session.polls, pollId);
        WithoutMembers(session.polls, pollId);
        assert forall j :: 0 <= j < |remaining| ==> remaining[j] in session.polls;
        var removed := Matching(session.polls, pollId);
        MatchingMembers(session.polls, pollId);
        assert forall j :: 0 <= j < |removed| ==> removed[j] in session.polls;
        Release(removed);
        var index := session.currentPollIndex;
        if index >= |remaining| {
          index := |remaining| - 1;
        }
        var updated := session.(polls := remaining, currentPollIndex := index);
        assert updated == PollModel.DeletePoll(session, pollId);
        Store(code, updated);
        r := Success(true);
      } else if code in ProtoMembers {
        r := Failure(TypeError);
      } else {
        r := Success(false);
      }
    }

    /** startPoll: ends every poll of the session, starts the one found by id, makes it current
        and arms its timer. Every stored poll has a truthy time limit, so a timer is armed
        exactly when the poll starts; Node waits `EffectiveDelay(timer.delayMs)` before it
        fires. An inherited member's name: throws. */
    method StartPoll(code: string, pollId: string) returns (r: Result<bool, JsError>, timer: Option<Timer>)
      requires Valid()
      modifies this
      ensures Valid() && nextInst == old(nextInst) && detached == old(detached)
      ensures r == Failure(TypeError) <==> code in ProtoMembers
      ensures r == Success(true) <==> code in old(sessions) && 0 <= FindIndex(old(sessions)[code].polls, pollId)
      ensures timer.Some? <==> r == Success(true)
      ensures r != Success(true) ==> sessions == old(sessions)
      ensures r == Success(true) ==>
        var s := old(sessions)[code];
        var i := FindIndex(s.polls, pollId);
        && sessions == old(sessions)[code := PollModel.StartPoll(s, pollId)]
        && timer == Some(Timer(code, s.polls[i].inst, Scale(s.polls[i].timeLimit, 1000.0)))
    {
      timer := None;
      if code in sessions {
        var session := sessions[code];
        var i := FindIndex(session.polls, pollId);
        if i != -1 {
          // session.polls.forEach(p => p.isActive = false)
          var polls := session.polls;
          var k := 0;
          while k < |polls|
            invariant 0 <= k <= |polls| == |session.polls|
            invariant forall j :: 0 <= j < k ==> polls[j] == session.polls[j].(isActive := false)
            invariant forall j :: k <= j < |polls| ==> polls[j] == session.polls[j]
          {
            polls := polls[k := polls[k].(isActive := false)];
            k := k + 1;
          }
          polls := polls[i := polls[i].(isActive := true)];
          var started := session.(polls := polls, currentPollIndex := i);
          assert started == PollModel.StartPoll(session, pollId);
          Store(code, started);
          var poll := polls[i];
          if Truthy(poll.timeLimit) {
            timer := Some(Timer(code, poll.inst, Scale(poll.timeLimit, 1000.0)));
          }
          r := Success(true);
        } else {
          r := Success(false);
        }
      } else if code in ProtoMembers {
        r := Failure(TypeError);
      } else {
        r := Success(false);
      }
    }

    /** The `setTimeout` callback of a timer: ends the poll object the timer closes over if it
        is still active. While that object is in the session under the code, that session
        changes; once it has left the table (replaced by updatePoll, filtered out by
        deletePoll, dropped with an overwritten session) only its detached flag changes, and
        the callback still broadcasts when the flag was set. A poll ended and started again is
        the same object, so the old timer ends it. */
    method FireTimer(t: Timer) returns (broadcast: bool)
      requires Valid()
      modifies this
      ensures Valid() && nextInst == old(nextInst)
      ensures t.code in old(sessions) && 0 <= FindInstance(old(sessions)[t.code].polls, t.inst) ==>
        var s := old(sessions)[t.code];
        && (broadcast <==> s.polls[FindInstance(s.polls, t.inst)].isActive)
        && sessions == old(sessions)[t.code := PollModel.FireTimer(s, t.inst)]
        && detached == old(detached)
      ensures !(t.code in old(sessions) && 0 <= FindInstance(old(sessions)[t.code].polls, t.inst)) ==>
        && (broadcast <==> t.inst in old(detached) && old(detached)[t.inst])
        && sessions == old(sessions)
        && detached == if broadcast then old(detached)[t.inst := false] else old(detached)
    {
      broadcast := false;
      var k := if t.code in sessions then FindInstance(sessions[t.code].polls, t.inst) else -1;
      if 0 <= k {
        var session := sessions[t.code];
        if session.polls[k].isActive {
          Store(t.code, Deactivate(session, k));
          broadcast := true;
        }
      } else if t.inst in detached && detached[t.inst] {
        detached := detached[t.inst := false];
        broadcast := true;
      }
    }

    /** endPoll: ends the first poll with the id (a no-op on one already ended, but still
        broadcast); unknown code or id: nothing; an inherited member's name: throws. */
    method EndPoll(code: string, pollId: string) returns (r: Result<bool, JsError>)
      requires Valid()
      modifies this
      ensures Valid() && nextInst == old(nextInst) && detached == old(detached)
      ensures r == Failure(TypeError) <==> code in ProtoMembers
      ensures r == Success(true) <==> code in old(sessions) && 0 <= FindIndex(old(sessions)[code].polls, pollId)
      ensures sessions == if code in old(sessions)
        then old(sessions)[code := PollModel.EndPoll(old(sessions)[code], pollId)]
        else old(sessions)
    {
      if code in sessions {
        var session := sessions[code];
        var i := FindIndex(session.polls, pollId);
        if i != -1 {
          Store(code, Deactivate(session, i));
          r := Success(true);
        } else {
          r := Success(false);
        }
      } else if code in ProtoMembers {
        r := Failure(TypeError);
      } else {
        r := Success(false);
      }
    }

    /** vote: counted exactly when the session and poll exist, the poll is active and the
        socket has not voted on it; otherwise nothing changes and nothing is sent; an inherited
        member's name as the code: throws. */
    method Vote(voter: string, code: string, pollId: string, option: string) returns (r: Result<bool, JsError>)
      requires Valid()
      modifies this
      ensures Valid() && nextInst == old(nextInst) && detached == old(detached)
      ensures r == Failure(TypeError) <==> code in ProtoMembers
      ensures r == Success(true) <==> code in old(sessions) && CanVote(old(sessions)[code], pollId, voter)
      ensures r != Success(true) ==> sessions == old(sessions)
      ensures sessions == if code in old(sessions)
        then old(sessions)[code := PollModel.Vote(old(sessions)[code], pollId, voter, option)]
        else old(sessions)
    {
      if code in sessions {
        var session := sessions[code];
        var i := FindIndex(session.polls, pollId);
        if i != -1 && session.polls[i].isActive && voter !in session.polls[i].voters {
          var poll := session.polls[i];
          var count := if option in poll.votes then poll.votes[option] else 0;
          poll := poll.(votes := poll.votes[option := count + 1]);
          poll := poll.(totalVotes := poll.totalVotes + 1);
          poll := poll.(voters := poll.voters + {voter});
          assert poll == Count(session.polls[i], voter, option);
          assert session.(polls := session.polls[i := poll]) == PollModel.Vote(session, pollId, voter, option);
          Store(code, session.(polls := session.polls[i := poll]));
          r := Success(true);
        } else {
          r := Success(false);
        }
      } else if code in ProtoMembers {
        r := Failure(TypeError);
      } else {
        r := Success(false);
      }
    }

    /** getPollSessions: every stored session, each once (the order `Object.values` gives is
        not modelled). */
    method GetPollSessions() returns (list: seq<Session>)
      requires Valid()
      ensures |list| == |sessions|
      ensures forall c :: c in sessions ==> sessions[c] in list
      ensures forall i :: 0 <= i < |list| ==> list[i].code in sessions && sessions[list[i].code] == list[i]
      ensures forall i, j :: 0 <= i < j < |list| ==> list[i].code != list[j].code
    {
      list := ValuesOf(sessions);
    }

    /** disconnect: the socket leaves every session's participants; no poll, vote or voter
        set is touched. */
    method Disconnect(participant: string)
      requires Valid()
      modifies this
      ensures Valid() && nextInst == old(nextInst) && detached == old(detached)
      ensures sessions.Keys == old(sessions).Keys
      ensures forall c :: c in sessions ==> sessions[c] == Leave(old(sessions)[c], participant)
    {
      var result := sessions;
      var keys := sessions.Keys;
      while keys != {}
        invariant keys <= result.Keys && result.Keys == sessions.Keys
        invariant forall c :: c in result ==>
          result[c] == if c in keys then sessions[c] else Leave(sessions[c], participant)
        decreases |keys|
      {
        var c :| c in keys;
        result := result[c := Leave(result[c], participant)];
        keys := keys - {c};
      }
      sessions := result;
    }
  }
}
