/** The backend's in-memory session store: a dictionary from session id to
    the record of one question/answer conversation about a résumé and a job
    post. Sessions are created with a fixed list of questions, grow one
    answer at a time, and are removed either strictly (404 when absent) or
    leniently. */
module SessionStore {
  import opened Text

  /** The `HTTPException` the store raises. */
  datatype HttpError = HttpError(statusCode: nat, detail: string)

  const SessionNotFound := HttpError(404, "Session not found")

  datatype Result<T> = Ok(value: T) | Err(error: HttpError)

  /** What `delete_session` does: return normally or raise. */
  datatype Outcome = Pass | Fail(error: HttpError)

  /** One stored session record. `currentQuestionIndex` is written once, at
      creation, and never read or updated afterwards. */
  datatype Session = Session(
    resumeText: string,
    jobPost: string,
    questions: seq<string>,
    answers: seq<string>,
    currentQuestionIndex: int,
    createdAt: string)

  /** The dictionary `get_session_status` returns. */
  datatype Status = Status(
    sessionId: string,
    questions: seq<string>,
    answers: seq<string>,
    currentQuestion: Option<string>,
    progress: string,
    createdAt: string)

  type Store = map<string, Session>

  /** The operations that change the store. The session id that
      `uuid.uuid4()` draws and the timestamp `datetime.now()` reads are
      carried by `Create` as plain values. */
  datatype Op =
    | Create(id: string, resumeText: string, jobPost: string, questions: seq<string>, createdAt: string)
    | AddAnswer(id: string, answer: string)
    | Delete(id: string)
    | Cleanup(id: string)

  /** The record `create_session` stores. */
  function NewSession(resumeText: string, jobPost: string, questions: seq<string>, createdAt: string): Session {
    Session(resumeText, jobPost, questions, [], 0, createdAt)
  }

  /** The record after `session["answers"].append(answer)`; there is no
      check against the number of questions. */
  function WithAnswer(s: Session, answer: string): Session {
    s.(answers := s.answers + [answer])
  }

  /** The new store after one operation. An operation that raises (adding an
      answer to, or strictly deleting, an unknown id) leaves it unchanged. */
  function Step(store: Store, op: Op): Store {
    match op
    case Create(id, resumeText, jobPost, questions, createdAt) =>
      store[id := NewSession(resumeText, jobPost, questions, createdAt)]
    case AddAnswer(id, answer) =>
      if id in store then store[id := WithAnswer(store[id], answer)] else store
    case Delete(id) =>
      if id in store then store - {id} else store
    case Cleanup(id) =>
      store - {id}
  }

  /** The store after a sequence of operations, in order. */
  function Run(store: Store, ops: seq<Op>): Store
    decreases |ops|
  {
    if ops == [] then store else Run(Step(store, ops[0]), ops[1..])
  }

  /** Every stored record still has the index it was created with. */
  ghost predicate IndexUntouched(store: Store) {
    forall id :: id in store ==> store[id].currentQuestionIndex == 0
  }

  /** No operation ever moves `current_question_index` away from 0. */
  lemma {:induction false} RunKeepsIndexUntouched(store: Store, ops: seq<Op>)
    requires IndexUntouched(store)
    ensures IndexUntouched(Run(store, ops))
    decreases |ops|
  {
    if ops != [] {
      var next := Step(store, ops[0]);
      assert IndexUntouched(next);
      RunKeepsIndexUntouched(next, ops[1..]);
    }
  }

  /** `is_complete`: at least as many answers as questions. */
  predicate IsComplete(s: Session) {
    |s.answers| >= |s.questions|
  }

  /** `get_next_question`: nothing once complete, otherwise the question at
      the position of the next answer. */
  function NextQuestion(s: Session): (q: Option<string>)
    ensures q.None? <==> IsComplete(s)
    ensures q.Some? ==> q.value in s.questions
  {
    if IsComplete(s) then None else Some(s.questions[|s.answers|])
  }

  /** The `progress` field: `"<answers>/<questions>"`, both counts in
      decimal without leading zeros. */
  function Progress(s: Session): (p: string)
    ensures p == NatToString(|s.answers|) + "/" + NatToString(|s.questions|)
    ensures ParseProgress(p) == Some((|s.answers|, |s.questions|))
  {
    ProgressParses(|s.answers|, |s.questions|);
    NatToString(|s.answers|) + "/" + NatToString(|s.questions|)
  }

  /** The first `/` of a progress text is the one after the answer count. */
  lemma SlashAfterDigits(a: string, q: string)
    requires forall i :: 0 <= i < |a| ==> IsDigit(a[i])
    ensures IndexOf(a + "/" + q, "/") == |a|
  {
    var p := a + "/" + q;
    assert OccursAt(p, "/", |a|);
    forall i | 0 <= i < |a| ensures !OccursAt(p, "/", i) {
      assert p[i..i + 1] == [a[i]];
    }
  }

  lemma ProgressParses(answers: nat, questions: nat)
    ensures ParseProgress(NatToString(answers) + "/" + NatToString(questions)) == Some((answers, questions))
  {
    var a, q := NatToString(answers), NatToString(questions);
    var p := a + "/" + q;
    SlashAfterDigits(a, q);
    assert p[..|a|] == a && p[|a| + 1..] == q;
    ParseNatToString(answers);
    ParseNatToString(questions);
  }

  /** Reads a progress string back into its two counts. */
  function ParseProgress(p: string): Option<(nat, nat)> {
    var k := IndexOf(p, "/");
    if k < 0 then None
    else
      var a, q := p[..k], p[k + 1..];
      if (forall i :: 0 <= i < |a| ==> IsDigit(a[i])) && (forall i :: 0 <= i < |q| ==> IsDigit(q[i]))
      then Some((ParseNat(a), ParseNat(q)))
      else None
  }

  /** The status summary of one record. */
  function StatusOf(id: string, s: Session): Status {
    Status(id, s.questions, s.answers, NextQuestion(s), Progress(s), s.createdAt)
  }

  /** The record after a run of `add_answer` calls, one per answer, in order. */
  function AnswerAll(s: Session, answers: seq<string>): Session
    decreases |answers|
  {
    if answers == [] then s else AnswerAll(WithAnswer(s, answers[0]), answers[1..])
  }

  /** The question the client is shown before each of those answers. */
  function Transcript(s: Session, answers: seq<string>): seq<Option<string>>
    decreases |answers|
  {
    if answers == [] then [] else [NextQuestion(s)] + Transcript(WithAnswer(s, answers[0]), answers[1..])
  }

  /** Answers accumulate in order and nothing else in the record moves. */
  lemma {:induction false} AnswerAllAppends(s: Session, answers: seq<string>)
    ensures AnswerAll(s, answers) == s.(answers := s.answers + answers)
    decreases |answers|
  {
    if answers == [] {
      assert s.answers + answers == s.answers;
    } else {
      AnswerAllAppends(WithAnswer(s, answers[0]), answers[1..]);
      assert (s.answers + [answers[0]]) + answers[1..] == s.answers + answers;
    }
  }

  /** Before each answer the client is shown the next unanswered question, so
      the questions are asked once each and in their stored order. */
  lemma {:induction false} QuestionsAskedInOrder(s: Session, answers: seq<string>)
    requires |s.answers| + |answers| <= |s.questions|
    ensures |Transcript(s, answers)| == |answers|
    ensures forall k :: 0 <= k < |answers| ==> Transcript(s, answers)[k] == Some(s.questions[|s.answers| + k])
    decreases |answers|
  {
    if answers != [] {
      var s' := WithAnswer(s, answers[0]);
      QuestionsAskedInOrder(s', answers[1..]);
      var t := Transcript(s, answers);
      forall k | 0 <= k < |answers| ensures t[k] == Some(s.questions[|s.answers| + k]) {
        if k > 0 {
          assert t[k] == Transcript(s', answers[1..])[k - 1];
        }
      }
    }
  }

  /** A fresh session answered once per question is complete with no next
      question; one more `add_answer` is still accepted and leaves more
      answers than questions. */
  lemma FullRoundThenOverflow(s: Session, answers: seq<string>, extra: string)
    requires s.answers == [] && |answers| == |s.questions|
    ensures IsComplete(AnswerAll(s, answers)) && NextQuestion(AnswerAll(s, answers)) == None
    ensures AnswerAll(s, answers).answers == answers
    ensures |WithAnswer(AnswerAll(s, answers), extra).answers| == |s.questions| + 1
  {
    AnswerAllAppends(s, answers);
    assert [] + answers == answers;
  }

  /** Starting from no answers, a session is complete exactly once it has
      received at least as many answers as it has questions. */
  lemma CompleteExactlyAfterRound(s: Session, answers: seq<string>)
    requires s.answers == []
    ensures IsComplete(AnswerAll(s, answers)) <==> |answers| >= |s.questions|
    ensures NextQuestion(AnswerAll(s, answers)).Some? <==> |answers| < |s.questions|
  {
    AnswerAllAppends(s, answers);
    assert [] + answers == answers;
  }

  /** Once complete, a session stays complete whatever is appended. */
  lemma CompleteIsStable(s: Session, answers: seq<string>)
    requires IsComplete(s)
    ensures IsComplete(AnswerAll(s, answers))
    ensures |AnswerAll(s, answers).answers| == |s.answers| + |answers|
  {
    AnswerAllAppends(s, answers);
  }

  /** `cleanup_session` leaves the id absent, and a second call changes
      nothing more. */
  lemma CleanupIdempotent(store: Store, id: string)
    ensures id !in Step(store, Cleanup(id))
    ensures Step(Step(store, Cleanup(id)), Cleanup(id)) == Step(store, Cleanup(id))
  {
  }

  /** The `SessionManager` object: one mutable dictionary of sessions. */
  class SessionManager {
    var sessions: Store

    ghost predicate Valid()
      reads this
    {
      IndexUntouched(sessions)
    }

    constructor ()
      ensures Valid() && sessions == map[]
    {
      sessions := map[];
    }

    /** `create_session`: stores a new record under the drawn id and returns
        the id. */
    method CreateSession(resumeText: string, jobPost: string, questions: seq<string>, sessionId: string, createdAt: string)
      returns (id: string)
      requires Valid()
      modifies this
      ensures Valid()
      ensures sessions == Step(old(sessions), Create(sessionId, resumeText, jobPost, questions, createdAt))
      ensures id == sessionId && id in sessions
      ensures sessions[id].questions == questions && sessions[id].answers == []
      ensures sessions[id].resumeText == resumeText && sessions[id].jobPost == jobPost
      ensures sessions[id].currentQuestionIndex == 0 && sessions[id].createdAt == createdAt
      ensures forall k :: k != id ==> (k in sessions <==> k in old(sessions))
      ensures forall k :: k != id && k in sessions ==> sessions[k] == old(sessions)[k]
    {
      sessions := sessions[sessionId := NewSession(resumeText, jobPost, questions, createdAt)];
      id := sessionId;
    }

    /** `get_session`: the stored record, or 404. */
    function GetSession(id: string): (r: Result<Session>)
      reads this
      ensures r.Err? <==> id !in sessions
      ensures r.Err? ==> r.error == SessionNotFound
      ensures r.Ok? ==> r.value == sessions[id]
    {
      if id !in sessions then Err(SessionNotFound) else Ok(sessions[id])
    }

    /** `add_answer`: appends one answer to an existing record and returns
        the record; raises 404 for an unknown id. */
    method AddAnswer(id: string, answer: string) returns (r: Result<Session>)
      requires Valid()
      modifies this
      ensures Valid()
      ensures sessions == Step(old(sessions), Op.AddAnswer(id, answer))
      ensures id !in old(sessions) ==> r == Err(SessionNotFound) && sessions == old(sessions)
      ensures id in old(sessions) ==> r.Ok? && r.value == sessions[id]
      ensures id in old(sessions) ==> sessions[id] == old(sessions)[id].(answers := old(sessions)[id].answers + [answer])
      ensures sessions.Keys == old(sessions).Keys
      ensures forall k :: k != id && k in sessions ==> sessions[k] == old(sessions)[k]
    {
      var got := GetSession(id);
      if got.Err? {
        return Err(got.error);
      }
      var session := WithAnswer(got.value, answer);
      sessions := sessions[id := session];
      r := Ok(session);
    }

    /** `get_session_status`: a read-only summary of one record, or 404. */
    function GetSessionStatus(id: string): (r: Result<Status>)
      reads this
      ensures r.Err? <==> id !in sessions
      ensures r.Err? ==> r.error == SessionNotFound
      ensures r.Ok? ==> r.value.sessionId == id && r.value.questions == sessions[id].questions
      ensures r.Ok? ==> r.value.answers == sessions[id].answers && r.value.createdAt == sessions[id].createdAt
      ensures r.Ok? ==> r.value.currentQuestion == NextQuestion(sessions[id])
      ensures r.Ok? ==> r.value.progress == NatToString(|sessions[id].answers|) + "/" + NatToString(|sessions[id].questions|)
      ensures r.Ok? ==> ParseProgress(r.value.progress) == Some((|sessions[id].answers|, |sessions[id].questions|))
    {
      match GetSession(id)
      case Err(e) => Err(e)
      case Ok(s) => Ok(StatusOf(id, s))
    }

    /** `delete_session`: removes exactly the given id, or raises 404 and
        changes nothing. */
    method DeleteSession(id: string) returns (r: Outcome)
      requires Valid()
      modifies this
      ensures Valid()
      ensures sessions == Step(old(sessions), Delete(id))
      ensures id !in old(sessions) ==> r == Fail(SessionNotFound) && sessions == old(sessions)
      ensures id in old(sessions) ==> r == Pass && sessions == old(sessions) - {id}
    {
      if id !in sessions {
        return Fail(SessionNotFound);
      }
      sessions := sessions - {id};
      r := Pass;
    }

    /** `cleanup_session`: removes the id if present; never raises. */
    method CleanupSession(id: string)
      requires Valid()
      modifies this
      ensures Valid()
      ensures sessions == Step(old(sessions), Cleanup(id))
      ensures id !in sessions && sessions == old(sessions) - {id}
    {
      if id in sessions {
        sessions := sessions - {id};
      }
    }
  }
}
