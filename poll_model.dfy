/** The state of one poll session of the socket server, and what each socket event does to it.
    Every function here is the effect of one handler on the session it addresses. */
module PollModel {
  import opened Wrappers
  import opened JsValues

  /** One poll. `inst` stands for the identity of the JavaScript object that holds the poll:
      `updatePoll` replaces that object by a copy, and the timer armed by `startPoll` keeps a
      reference to the object it was armed on, not to the poll id. */
  datatype Poll = Poll(
    inst: nat,
    id: string,
    question: string,
    options: seq<string>,
    votes: map<string, nat>,
    isActive: bool,
    totalVotes: nat,
    voters: set<string>,
    timeLimit: JsNumber)

  /** A session; `currentPollIndex` is -1 until a poll is started. */
  datatype Session = Session(
    code: string,
    polls: seq<Poll>,
    participants: set<string>,
    currentPollIndex: int)

  /** Seconds a poll runs when no (or a zero) time limit is given. */
  const DefaultTimeLimit: JsNumber := Finite(30.0)

  /** `data.timeLimit || 30`: a missing limit, 0, -0 and NaN become 30; any other number, a
      fraction, a negative number or an infinity, is kept. */
  function TimeLimitOrDefault(t: Option<JsNumber>): (r: JsNumber)
    ensures Truthy(r)
    ensures t.Some? && Truthy(t.value) ==> r == t.value
    ensures t.None? || !Truthy(t.value) ==> r == DefaultTimeLimit
  {
    if t.Some? && Truthy(t.value) then t.value else DefaultTimeLimit
  }

  // ---------------------------------------------------------------- tallies

  /** Sum of the counts of a `votes` record. */
  ghost function Sum(m: map<string, nat>): nat
    decreases |m|
  {
    if m == map[] then 0
    else
      var k :| k in m;
      m[k] + Sum(m - {k})
  }

  /** The sum does not depend on the key it is unfolded at. */
  lemma {:induction false} SumRemove(m: map<string, nat>, k: string)
    requires k in m
    ensures Sum(m) == m[k] + Sum(m - {k})
    decreases |m|
  {
    var j :| j in m && Sum(m) == m[j] + Sum(m - {j});
    if j != k {
      var mj, mk := m - {j}, m - {k};
      SumRemove(mj, k);
      SumRemove(mk, j);
      assert mj - {k} == mk - {j};
    }
  }

  /** `votes[option] = (votes[option] || 0) + 1`. */
  function Bump(m: map<string, nat>, k: string): (r: map<string, nat>)
    ensures r.Keys == m.Keys + {k}
    ensures r[k] == (if k in m then m[k] else 0) + 1
    ensures forall j :: j in m && j != k ==> r[j] == m[j]
  {
    m[k := (if k in m then m[k] else 0) + 1]
  }

  lemma SumBump(m: map<string, nat>, k: string)
    ensures Sum(Bump(m, k)) == Sum(m) + 1
  {
    var r := Bump(m, k);
    SumRemove(r, k);
    assert r - {k} == m - {k};
    if k in m {
      SumRemove(m, k);
    } else {
      assert m - {k} == m;
    }
  }

  // ---------------------------------------------------------------- invariants

  /** Number of active polls. */
  function ActiveCount(ps: seq<Poll>): nat
  {
    if ps == [] then 0 else (if ps[0].isActive then 1 else 0) + ActiveCount(ps[1..])
  }

  lemma {:induction false} ActiveCountAppend(a: seq<Poll>, b: seq<Poll>)
    ensures ActiveCount(a + b) == ActiveCount(a) + ActiveCount(b)
  {
    if a != [] {
      assert (a + b)[1..] == a[1..] + b;
      ActiveCountAppend(a[1..], b);
    } else {
      assert a + b == b;
    }
  }

  lemma {:induction false} ActiveCountNone(ps: seq<Poll>)
    ensures ActiveCount(ps) == 0 <==> forall j :: 0 <= j < |ps| ==> !ps[j].isActive
  {
    if ps != [] {
      ActiveCountNone(ps[1..]);
      assert forall j :: 1 <= j < |ps| ==> ps[j] == ps[1..][j - 1];
    }
  }

  /** Replacing one poll changes the count by the difference of the two flags. */
  lemma ActiveCountUpdate(ps: seq<Poll>, i: nat, p: Poll)
    requires i < |ps|
    ensures ActiveCount(ps[i := p]) + (if ps[i].isActive then 1 else 0)
         == ActiveCount(ps) + (if p.isActive then 1 else 0)
  {
    assert ps == ps[..i] + [ps[i]] + ps[i + 1..];
    assert ps[i := p] == ps[..i] + [p] + ps[i + 1..];
    ActiveCountAppend(ps[..i] + [ps[i]], ps[i + 1..]);
    ActiveCountAppend(ps[..i], [ps[i]]);
    ActiveCountAppend(ps[..i] + [p], ps[i + 1..]);
    ActiveCountAppend(ps[..i], [p]);
  }

  /** "At most one active poll", counted, is the same as: two active polls are the same poll. */
  lemma {:induction false} AtMostOneActiveMeans(ps: seq<Poll>)
    ensures ActiveCount(ps) <= 1 <==>
      forall i, j :: 0 <= i < |ps| && 0 <= j < |ps| && ps[i].isActive && ps[j].isActive ==> i == j
  {
    if ps != [] {
      var t := ps[1..];
      AtMostOneActiveMeans(t);
      ActiveCountNone(t);
      assert forall j :: 1 <= j < |ps| ==> ps[j] == t[j - 1];
      if ActiveCount(ps) > 1 {
        if ps[0].isActive {
          var j :| 0 <= j < |t| && t[j].isActive;
          assert ps[j + 1].isActive;
        } else {
          var i, j :| 0 <= i < |t| && 0 <= j < |t| && t[i].isActive && t[j].isActive && i != j;
          assert ps[i + 1].isActive && ps[j + 1].isActive;
        }
      }
    }
  }

  ghost predicate DistinctInsts(ps: seq<Poll>)
  {
    forall i, j :: 0 <= i < j < |ps| ==> ps[i].inst != ps[j].inst
  }

  /** One vote counts one participant: the tally, its total and the voter set agree. A stored
      time limit is always truthy, so `startPoll` always arms a timer. */
  ghost predicate PollValid(p: Poll)
  {
    && p.totalVotes == Sum(p.votes)
    && |p.voters| == p.totalVotes
    && Truthy(p.timeLimit)
  }

  /** What every handler keeps true of a session. */
  ghost predicate SessionValid(s: Session)
  {
    && (forall i :: 0 <= i < |s.polls| ==> PollValid(s.polls[i]))
    && ActiveCount(s.polls) <= 1
    && -1 <= s.currentPollIndex < |s.polls|
    && DistinctInsts(s.polls)
  }

  // ---------------------------------------------------------------- searching

  /** The first position whose poll satisfies `f`, or -1. */
  function FirstWhere(ps: seq<Poll>, f: Poll -> bool): (i: int)
    ensures -1 <= i < |ps|
    ensures 0 <= i ==> f(ps[i]) && forall j :: 0 <= j < i ==> !f(ps[j])
    ensures i == -1 ==> forall j :: 0 <= j < |ps| ==> !f(ps[j])
  {
    if ps == [] then -1
    else if f(ps[0]) then 0
    else
      var k := FirstWhere(ps[1..], f);
      if k == -1 then -1 else k + 1
  }

  /** Two lists on which a test gives the same answers position by position have the same
      first match. */
  lemma {:induction false} FirstWhereAgrees(a: seq<Poll>, b: seq<Poll>, f: Poll -> bool)
    requires |a| == |b| && forall j :: 0 <= j < |a| ==> f(a[j]) == f(b[j])
    ensures FirstWhere(a, f) == FirstWhere(b, f)
  {
    if a != [] {
      FirstWhereAgrees(a[1..], b[1..], f);
    }
  }

  /** `polls.findIndex(p => p.id === id)` (and `find`): the first poll with that id, or -1. */
  function FindIndex(ps: seq<Poll>, id: string): (i: int)
    ensures -1 <= i < |ps|
    ensures 0 <= i ==> ps[i].id == id && forall j :: 0 <= j < i ==> ps[j].id != id
    ensures i == -1 ==> forall j :: 0 <= j < |ps| ==> ps[j].id != id
  {
    FirstWhere(ps, (p: Poll) => p.id == id)
  }

  /** The live poll that is the object a timer was armed on, or -1. */
  function FindInstance(ps: seq<Poll>, inst: nat): (i: int)
    ensures -1 <= i < |ps|
    ensures 0 <= i ==> ps[i].inst == inst && forall j :: 0 <= j < i ==> ps[j].inst != inst
    ensures i == -1 ==> forall j :: 0 <= j < |ps| ==> ps[j].inst != inst
  {
    FirstWhere(ps, (p: Poll) => p.inst == inst)
  }

  /** `polls.filter(p => p.id !== id)`. */
  function Without(ps: seq<Poll>, id: string): (r: seq<Poll>)
    ensures |r| <= |ps|
  {
    if ps == [] then []
    else (if ps[0].id == id then [] else [ps[0]]) + Without(ps[1..], id)
  }

  /** Exactly the polls with another id remain. */
  lemma {:induction false} WithoutMembers(ps: seq<Poll>, id: string)
    ensures forall p :: p in Without(ps, id) <==> p in ps && p.id != id
  {
    if ps != [] {
      WithoutMembers(ps[1..], id);
      assert forall p :: p in ps <==> p == ps[0] || p in ps[1..];
    }
  }

  /** The polls `filter` drops: those with the id, in their order. */
  function Matching(ps: seq<Poll>, id: string): (r: seq<Poll>)
    ensures |r| <= |ps|
    ensures forall j :: 0 <= j < |r| ==> r[j].id == id
  {
    if ps == [] then []
    else (if ps[0].id == id then [ps[0]] else []) + Matching(ps[1..], id)
  }

  /** Exactly the polls with the id are dropped. */
  lemma {:induction false} MatchingMembers(ps: seq<Poll>, id: string)
    ensures forall p :: p in Matching(ps, id) <==> p in ps && p.id == id
  {
    if ps != [] {
      MatchingMembers(ps[1..], id);
      assert forall p :: p in ps <==> p == ps[0] || p in ps[1..];
    }
  }

  /** Filtering keeps the remaining polls in their order. */

  lemma {:induction false} WithoutAppend(a: seq<Poll>, b: seq<Poll>, id: string)
    ensures Without(a + b, id) == Without(a, id) + Without(b, id)
  {
    if a == [] {
      assert a + b == b;
    } else {
      assert (a + b)[1..] == a[1..] + b;
      WithoutAppend(a[1..], b, id);
    }
  }

  /** Removing the one poll with that id splices it out. */
  lemma {:induction false} WithoutSingle(ps: seq<Poll>, j: nat, id: string)
    requires j < |ps| && ps[j].id == id
    requires forall k :: 0 <= k < |ps| && k != j ==> ps[k].id != id
    ensures Without(ps, id) == ps[..j] + ps[j + 1..]
    decreases j
  {
    var t := ps[1..];
    if j == 0 {
      assert Without(t, id) == t by {
        forall k | 0 <= k < |t| ensures t[k].id != id {
          assert t[k] == ps[k + 1];
        }
        WithoutNone(t, id);
      }
      assert ps[j + 1..] == t;
    } else {
      assert Without(t, id) == t[..j - 1] + t[j..] by {
        forall k | 0 <= k < |t| && k != j - 1 ensures t[k].id != id {
          assert t[k] == ps[k + 1];
        }
        WithoutSingle(t, j - 1, id);
      }
      assert ps[..j] + ps[j + 1..] == [ps[0]] + (t[..j - 1] + t[j..]);
    }
  }

  lemma {:induction false} WithoutNone(ps: seq<Poll>, id: string)
    requires forall k :: 0 <= k < |ps| ==> ps[k].id != id
    ensures Without(ps, id) == ps
  {
    if ps != [] {
      WithoutNone(ps[1..], id);
    }
  }

  lemma {:induction false} WithoutActiveCount(ps: seq<Poll>, id: string)
    ensures ActiveCount(Without(ps, id)) <= ActiveCount(ps)
  {
    if ps != [] {
      WithoutActiveCount(ps[1..], id);
      ActiveCountAppend(if ps[0].id == id then [] else [ps[0]], Without(ps[1..], id));
    }
  }

  lemma {:induction false} WithoutDistinct(ps: seq<Poll>, id: string)
    ensures DistinctInsts(ps) ==> DistinctInsts(Without(ps, id))
  {
    if ps != [] && DistinctInsts(ps) {
      var t := ps[1..];
      assert DistinctInsts(t) by {
        forall i, j | 0 <= i < j < |t| ensures t[i].inst != t[j].inst {
          assert t[i] == ps[i + 1] && t[j] == ps[j + 1];
        }
      }
      WithoutDistinct(t, id);
      WithoutMembers(t, id);
      if ps[0].id != id {
        var w := Without(t, id);
        var r := [ps[0]] + w;
        forall q | q in w ensures q.inst != ps[0].inst {
          var k :| 0 <= k < |t| && t[k] == q;
          assert ps[k + 1] == q;
        }
        forall i, j | 0 <= i < j < |r| ensures r[i].inst != r[j].inst {
          assert r[j] == w[j - 1];
          if i > 0 { assert r[i] == w[i - 1]; }
        }
      }
    }
  }

  // ---------------------------------------------------------------- handlers

  /** createPollSession: no polls, no participants, no current poll. */
  function NewSession(code: string): (s: Session)
    ensures s.code == code && s.polls == [] && s.participants == {}
    ensures s.currentPollIndex == -1
    ensures SessionValid(s)
  {
    Session(code, [], {}, -1)
  }

  /** joinPollSession on an existing session: the participant is added to its set. */
  function Join(s: Session, participant: string): (r: Session)
    ensures r.participants == s.participants + {participant}
    ensures r.code == s.code && r.polls == s.polls && r.currentPollIndex == s.currentPollIndex
    ensures SessionValid(s) ==> SessionValid(r)
  {
    s.(participants := s.participants + {participant})
  }

  lemma JoinIdempotent(s: Session, participant: string)
    ensures Join(Join(s, participant), participant) == Join(s, participant)
  {
  }

  /** disconnect, for one session: the participant leaves its set; votes already cast stay. */
  function Leave(s: Session, participant: string): (r: Session)
    ensures r.participants == s.participants - {participant}
    ensures r.code == s.code && r.polls == s.polls && r.currentPollIndex == s.currentPollIndex
    ensures SessionValid(s) ==> SessionValid(r)
  {
    s.(participants := s.participants - {participant})
  }

  /** The poll object createPoll builds: inactive, no votes, no voters. */
  function NewPoll(inst: nat, id: string, question: string, options: seq<string>, timeLimit: Option<JsNumber>): (p: Poll)
    ensures p.inst == inst && p.id == id && p.question == question && p.options == options
    ensures !p.isActive && p.votes == map[] && p.totalVotes == 0 && p.voters == {}
    ensures p.timeLimit == TimeLimitOrDefault(timeLimit)
    ensures PollValid(p)
  {
    Poll(inst, id, question, options, map[], false, 0, {}, TimeLimitOrDefault(timeLimit))
  }

  predicate FreshInst(s: Session, inst: nat)
  {
    forall j :: 0 <= j < |s.polls| ==> s.polls[j].inst != inst
  }

  /** createPoll on an existing session: one new poll at the end, all else as it was. */
  function AddPoll(s: Session, p: Poll): (r: Session)
    ensures |r.polls| == |s.polls| + 1 && r.polls[..|s.polls|] == s.polls && r.polls[|s.polls|] == p
    ensures r.code == s.code && r.participants == s.participants
    ensures r.currentPollIndex == s.currentPollIndex
    ensures SessionValid(s) && PollValid(p) && !p.isActive && FreshInst(s, p.inst) ==> SessionValid(r)
  {
    ActiveCountAppend(s.polls, [p]);
    s.(polls := s.polls + [p])
  }

  /** updatePoll on an existing session. The poll found by id is replaced by a new object
      (`inst`) carrying the new question, options and time limit and everything else of the old
      one; an unknown id changes nothing. */
  function UpdatePoll(s: Session, id: string, inst: nat, question: string, options: seq<string>, timeLimit: Option<JsNumber>): (r: Session)
    ensures FindIndex(s.polls, id) == -1 ==> r == s
    ensures var i := FindIndex(s.polls, id);
      0 <= i ==>
        && |r.polls| == |s.polls|
        && (forall j :: 0 <= j < |s.polls| && j != i ==> r.polls[j] == s.polls[j])
        && r.polls[i].id == s.polls[i].id && r.polls[i].votes == s.polls[i].votes
        && r.polls[i].totalVotes == s.polls[i].totalVotes && r.polls[i].voters == s.polls[i].voters
        && r.polls[i].isActive == s.polls[i].isActive
        && r.polls[i].question == question && r.polls[i].options == options
        && r.polls[i].timeLimit == TimeLimitOrDefault(timeLimit) && r.polls[i].inst == inst
    ensures r.code == s.code && r.participants == s.participants
    ensures r.currentPollIndex == s.currentPollIndex
    ensures SessionValid(s) && FreshInst(s, inst) ==> SessionValid(r)
  {
    var i := FindIndex(s.polls, id);
    if i < 0 then s
    else
      var p := s.polls[i];
      var q := p.(inst := inst, question := question, options := options,
                  timeLimit := TimeLimitOrDefault(timeLimit));
      ActiveCountUpdate(s.polls, i, q);
      s.(polls := s.polls[i := q])
  }

  /** deletePoll on an existing session: every poll with the id goes, the rest keep their
      order, and the current index is pulled back only when it points past the end. */
  function DeletePoll(s: Session, id: string): (r: Session)
    ensures r.polls == Without(s.polls, id)
    ensures s.currentPollIndex < |r.polls| ==> r.currentPollIndex == s.currentPollIndex
    ensures s.currentPollIndex >= |r.polls| ==> r.currentPollIndex == |r.polls| - 1
    ensures -1 <= s.currentPollIndex ==> -1 <= r.currentPollIndex < |r.polls|
    ensures -1 <= s.currentPollIndex && r.polls == [] ==> r.currentPollIndex == -1
    ensures r.code == s.code && r.participants == s.participants
    ensures SessionValid(s) ==> SessionValid(r)
  {
    var ps := Without(s.polls, id);
    WithoutActiveCount(s.polls, id);
    WithoutDistinct(s.polls, id);
    WithoutMembers(s.polls, id);
    s.(polls := ps, currentPollIndex := if s.currentPollIndex >= |ps| then |ps| - 1 else s.currentPollIndex)
  }

  /** startPoll on an existing session: the poll found by id becomes the only active poll and
      the current one; nothing else about any poll changes. An unknown id changes nothing. */
  function StartPoll(s: Session, id: string): (r: Session)
    ensures FindIndex(s.polls, id) == -1 ==> r == s
    ensures var i := FindIndex(s.polls, id);
      0 <= i ==>
        && |r.polls| == |s.polls| && r.currentPollIndex == i
        && (forall j :: 0 <= j < |s.polls| ==> r.polls[j] == s.polls[j].(isActive := j == i))
    ensures r.code == s.code && r.participants == s.participants
    ensures SessionValid(s) ==> SessionValid(r)
  {
    var i := FindIndex(s.polls, id);
    if i < 0 then s
    else
      var ps := seq(|s.polls|, j requires 0 <= j < |s.polls| => s.polls[j].(isActive := j == i));
      OnlyOneActive(ps, i);
      s.(polls := ps, currentPollIndex := i)
  }

  lemma OnlyOneActive(ps: seq<Poll>, i: nat)
    requires i < |ps|
    requires forall j :: 0 <= j < |ps| ==> ps[j].isActive == (j == i)
    ensures ActiveCount(ps) == 1
  {
    assert ps == ps[..i] + [ps[i]] + ps[i + 1..];
    ActiveCountAppend(ps[..i] + [ps[i]], ps[i + 1..]);
    ActiveCountAppend(ps[..i], [ps[i]]);
    ActiveCountNone(ps[..i]);
    ActiveCountNone(ps[i + 1..]);
  }

  /** `poll.isActive = false` on the poll at position i. */
  function Deactivate(s: Session, i: nat): (r: Session)
    requires i < |s.polls|
    ensures |r.polls| == |s.polls| && r.polls[i] == s.polls[i].(isActive := false)
    ensures forall j :: 0 <= j < |s.polls| && j != i ==> r.polls[j] == s.polls[j]
    ensures r.code == s.code && r.participants == s.participants
    ensures r.currentPollIndex == s.currentPollIndex
    ensures SessionValid(s) ==> SessionValid(r)
  {
    ActiveCountUpdate(s.polls, i, s.polls[i].(isActive := false));
    s.(polls := s.polls[i := s.polls[i].(isActive := false)])
  }

  /** endPoll on an existing session: the first poll with the id is ended. */
  function EndPoll(s: Session, id: string): (r: Session)
    ensures FindIndex(s.polls, id) == -1 ==> r == s
    ensures var i := FindIndex(s.polls, id);
      0 <= i ==> r == Deactivate(s, i) && !r.polls[i].isActive
    ensures SessionValid(s) ==> SessionValid(r)
  {
    var i := FindIndex(s.polls, id);
    if i < 0 then s else Deactivate(s, i)
  }

  /** The timer callback, on the session the timer was armed in: it ends the poll object it
      was armed on, if that object is still in the session and still active. */
  function FireTimer(s: Session, inst: nat): (r: Session)
    ensures var k := FindInstance(s.polls, inst);
      if 0 <= k && s.polls[k].isActive then r == Deactivate(s, k) else r == s
    ensures SessionValid(s) ==> SessionValid(r)
  {
    var k := FindInstance(s.polls, inst);
    if 0 <= k && s.polls[k].isActive then Deactivate(s, k) else s
  }

  /** The checks of the vote handler: the poll exists, is active, and the voter has not voted. */
  predicate CanVote(s: Session, id: string, voter: string)
  {
    var i := FindIndex(s.polls, id);
    0 <= i && s.polls[i].isActive && voter !in s.polls[i].voters
  }

  /** One accepted vote on a poll. */
  function Count(p: Poll, voter: string, option: string): (r: Poll)
    ensures r.votes == Bump(p.votes, option) && r.totalVotes == p.totalVotes + 1
    ensures r.voters == p.voters + {voter}
    ensures r.inst == p.inst && r.id == p.id && r.question == p.question && r.options == p.options
    ensures r.isActive == p.isActive && r.timeLimit == p.timeLimit
    ensures PollValid(p) && voter !in p.voters ==> PollValid(r)
  {
    SumBump(p.votes, option);
    p.(votes := Bump(p.votes, option), totalVotes := p.totalVotes + 1, voters := p.voters + {voter})
  }

  /** vote on an existing session: counted exactly when CanVote holds (the option is not
      checked against the poll's options), otherwise nothing changes. */
  function Vote(s: Session, id: string, voter: string, option: string): (r: Session)
    ensures !CanVote(s, id, voter) ==> r == s
    ensures CanVote(s, id, voter) ==>
      var i := FindIndex(s.polls, id);
      && |r.polls| == |s.polls| && r.polls[i] == Count(s.polls[i], voter, option)
      && (forall j :: 0 <= j < |s.polls| && j != i ==> r.polls[j] == s.polls[j])
      && r.code == s.code && r.participants == s.participants
      && r.currentPollIndex == s.currentPollIndex
    ensures SessionValid(s) ==> SessionValid(r)
  {
    var i := FindIndex(s.polls, id);
    if 0 <= i && s.polls[i].isActive && voter !in s.polls[i].voters then
      var p := Count(s.polls[i], voter, option);
      ActiveCountUpdate(s.polls, i, p);
      s.(polls := s.polls[i := p])
    else s
  }

  // ---------------------------------------------------------------- the tally as written

  /** A value a `votes` record holds or inherits, as `(votes[option] || 0) + 1` sees it: a
      count, or text (an inherited member, or what `+ 1` made of one). */
  datatype VoteValue = Tally(n: nat) | Text(t: string)

  /** `votes[option]` on a record created as `{}`: the own entry, else the member inherited
      from `Object.prototype` (as its text), else `undefined`. */
  function ReadVote(votes: map<string, VoteValue>, option: string): (v: Option<VoteValue>)
    ensures option in votes ==> v == Some(votes[option])
    ensures option !in votes && option in ProtoMembers ==> v == Some(Text(InheritedText(option)))
    ensures option !in votes && option !in ProtoMembers ==> v.None?
  {
    if option in votes then Some(votes[option])
    else if option in ProtoMembers then Some(Text(InheritedText(option)))
    else None
  }

  /** `votes[option] = (votes[option] || 0) + 1` on a `{}` record, as the server writes it. An
      inherited member is truthy, so `+ 1` appends "1" to its text; assigning a string to
      `__proto__` is ignored. */
  function BumpAsWritten(votes: map<string, VoteValue>, option: string): map<string, VoteValue>
  {
    var next := match ReadVote(votes, option)
      case None => Tally(1)
      case Some(Tally(n)) => Tally(n + 1)
      case Some(Text(t)) => if t == [] then Tally(1) else Text(t + "1");
    if option == "__proto__" then votes else votes[option := next]
  }

  /** The sum of the counts of a record; text entries count nothing. */
  ghost function CountSum(votes: map<string, VoteValue>): nat
    decreases |votes|
  {
    if votes == map[] then 0
    else
      var k :| k in votes;
      (if votes[k].Tally? then votes[k].n else 0) + CountSum(votes - {k})
  }

  /** As written, a vote for "__proto__" leaves the record as it was while `totalVotes++`
      still runs, so the counts no longer add up to the total. */
  lemma ProtoVoteIsLost(votes: map<string, VoteValue>, totalVotes: nat)
    ensures BumpAsWritten(votes, "__proto__") == votes
    ensures totalVotes == CountSum(votes) ==>
      totalVotes + 1 != CountSum(BumpAsWritten(votes, "__proto__"))
  {
  }

  /** As written, a first vote for "constructor" stores text, not a count of one. */
  lemma ConstructorVoteIsText()
    ensures BumpAsWritten(map[], "constructor") ==
      map["constructor" := Text("function Object() { [native code] }1")]
    ensures CountSum(BumpAsWritten(map[], "constructor")) == 0
  {
    var m := BumpAsWritten(map[], "constructor");
    assert "constructor" in ProtoMembers;
    assert "function Object() { [native code] }" + "1" == "function Object() { [native code] }1";
    assert m == map["constructor" := Text("function Object() { [native code] }1")];
    assert m - {"constructor"} == map[];
  }

  // ---------------------------------------------------------------- properties across events

  /** A participant's second vote on the same poll, for any option, changes nothing. */
  lemma RepeatVoteIgnored(s: Session, id: string, voter: string, first: string, second: string)
    ensures var s1 := Vote(s, id, voter, first);
      Vote(s1, id, voter, second) == s1
  {
    var s1 := Vote(s, id, voter, first);
    if CanVote(s, id, voter) {
      SameIdsSameIndex(s.polls, s1.polls, id);
    }
  }

  /** Handlers that keep every poll's id keep every lookup by id. */
  lemma {:induction false} SameIdsSameIndex(a: seq<Poll>, b: seq<Poll>, id: string)
    requires |a| == |b| && forall j :: 0 <= j < |a| ==> a[j].id == b[j].id
    ensures FindIndex(a, id) == FindIndex(b, id)
  {
    FirstWhereAgrees(a, b, (p: Poll) => p.id == id);
  }

  lemma EndPollIdempotent(s: Session, id: string)
    ensures EndPoll(EndPoll(s, id), id) == EndPoll(s, id)
  {
    var i := FindIndex(s.polls, id);
    if 0 <= i {
      SameIdsSameIndex(s.polls, EndPoll(s, id).polls, id);
      assert EndPoll(s, id).polls[i := EndPoll(s, id).polls[i]] == EndPoll(s, id).polls;
    }
  }

  /** Ending a poll that is not active changes nothing. */
  lemma EndInactiveIsNoop(s: Session, id: string)
    requires 0 <= FindIndex(s.polls, id) && !s.polls[FindIndex(s.polls, id)].isActive
    ensures EndPoll(s, id) == s
  {
    var i := FindIndex(s.polls, id);
    assert s.polls[i := s.polls[i].(isActive := false)] == s.polls;
  }

  /** When the time limit of a started poll elapses with nothing else happening, the poll is
      ended, exactly as endPoll would. */
  lemma TimerEndsRunningPoll(s: Session, id: string)
    requires SessionValid(s) && 0 <= FindIndex(s.polls, id)
    ensures var s1 := StartPoll(s, id);
      FireTimer(s1, s.polls[FindIndex(s.polls, id)].inst) == EndPoll(s1, id)
  {
    var i := FindIndex(s.polls, id);
    var s1 := StartPoll(s, id);
    SameIdsSameIndex(s.polls, s1.polls, id);
    assert FindInstance(s1.polls, s.polls[i].inst) == i;
  }

  /** A poll ended by hand is left alone by its timer when the timer fires. */
  lemma TimerAfterEndIsNoop(s: Session, id: string)
    requires SessionValid(s) && 0 <= FindIndex(s.polls, id)
    ensures var s1 := EndPoll(s, id);
      FireTimer(s1, s.polls[FindIndex(s.polls, id)].inst) == s1
  {
    var i := FindIndex(s.polls, id);
    var s1 := EndPoll(s, id);
    assert FindInstance(s1.polls, s.polls[i].inst) == i;
  }

  /** updatePoll disarms the timer of the poll it edits: the timer holds the replaced object,
      so firing it leaves the session, and the edited poll (even an active one) running; it
      only ends the replaced object, which has left the session. */
  lemma TimerAfterUpdateIsNoop(s: Session, id: string, inst: nat, question: string, options: seq<string>, timeLimit: Option<JsNumber>)
    requires SessionValid(s) && FreshInst(s, inst) && 0 <= FindIndex(s.polls, id)
    ensures var s1 := UpdatePoll(s, id, inst, question, options, timeLimit);
      FireTimer(s1, s.polls[FindIndex(s.polls, id)].inst) == s1
      && s1.polls[FindIndex(s.polls, id)].isActive == s.polls[FindIndex(s.polls, id)].isActive
  {
    var i := FindIndex(s.polls, id);
    var s1 := UpdatePoll(s, id, inst, question, options, timeLimit);
    assert FindInstance(s1.polls, s.polls[i].inst) == -1;
  }

  /** A deleted poll's timer changes nothing when it fires. */
  lemma TimerAfterDeleteIsNoop(s: Session, id: string)
    requires SessionValid(s) && 0 <= FindIndex(s.polls, id)
    ensures var s1 := DeletePoll(s, id);
      FireTimer(s1, s.polls[FindIndex(s.polls, id)].inst) == s1
  {
    var i := FindIndex(s.polls, id);
    var ps := Without(s.polls, id);
    WithoutMembers(s.polls, id);
    forall k | 0 <= k < |ps| ensures ps[k].inst != s.polls[i].inst {
      assert ps[k] in s.polls && ps[k].id != id;
      var m :| 0 <= m < |s.polls| && s.polls[m] == ps[k];
      assert m != i;
    }
  }

  /** A timer is not cancelled by endPoll: after start, end and a second start of the same
      poll, the first run's timer ends the second run. */
  lemma StaleTimerEndsRestartedPoll(s: Session, id: string)
    requires SessionValid(s) && 0 <= FindIndex(s.polls, id)
    ensures var s3 := StartPoll(EndPoll(StartPoll(s, id), id), id);
      var r := FireTimer(s3, s.polls[FindIndex(s.polls, id)].inst);
      r == EndPoll(s3, id) && s3.polls[FindIndex(s.polls, id)].isActive
      && !r.polls[FindIndex(s.polls, id)].isActive
  {
    var i := FindIndex(s.polls, id);
    var s1 := StartPoll(s, id);
    SameIdsSameIndex(s.polls, s1.polls, id);
    var s2 := EndPoll(s1, id);
    SameIdsSameIndex(s1.polls, s2.polls, id);
    var s3 := StartPoll(s2, id);
    SameIdsSameIndex(s2.polls, s3.polls, id);
    assert s3.polls[i].inst == s.polls[i].inst;
    assert FindInstance(s3.polls, s.polls[i].inst) == i;
  }

  /** The current index is not shifted when an earlier poll is deleted: it then names the poll
      that followed the one that was started. */
  lemma DeleteEarlierPollShiftsCurrent(s: Session, id: string, j: nat)
    requires SessionValid(s) && j < s.currentPollIndex < |s.polls| - 1
    requires s.polls[j].id == id
    requires forall k :: 0 <= k < |s.polls| && k != j ==> s.polls[k].id != id
    ensures var r := DeletePoll(s, id);
      r.currentPollIndex == s.currentPollIndex
      && r.polls[r.currentPollIndex] == s.polls[s.currentPollIndex + 1]
  {
    WithoutSingle(s.polls, j, id);
  }

  lemma DeletePollIdempotent(s: Session, id: string)
    requires SessionValid(s)
    ensures DeletePoll(DeletePoll(s, id), id) == DeletePoll(s, id)
  {
    var ps := Without(s.polls, id);
    WithoutMembers(s.polls, id);
    assert forall k :: 0 <= k < |ps| ==> ps[k] in ps;
    WithoutNone(ps, id);
  }
}
