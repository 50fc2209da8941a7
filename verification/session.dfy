/** The per-session state of the practice page and the transitions its
    buttons make, as values. Each transition is one button press handled
    to completion; the language-model reply it waits for is a parameter. */
module Session {
  import opened Wrappers
  import opened Text
  import opened Turns
  import opened Progress

  /** Sidebar choices copied into every history record. */
  datatype Config = Config(difficulty: string, interviewType: string, role: string)

  /** One entry of `history`; timestamps are opaque text. */
  datatype Record =
    | QuickPractice(timestamp: string, question: string, answer: string, feedback: string, config: Config)
    | MockInterview(timestamp: string, config: Config, transcript: string, feedback: string, numQuestions: nat)

  datatype State = State(
    history: seq<Record>,
    totalQuestions: nat,
    mockMessages: seq<Turn>,
    mockStarted: bool,
    interviewCount: nat,
    currentQuestion: Option<string>)

  /** The state of a fresh session. */
  function Initial(): (r: State)
    ensures Valid(r) && Score(r) == 0
  {
    State([], 0, [], false, 0, None)
  }

  /** Python truthiness of a reply: a failed call and an empty text are
      both treated as "no result". */
  predicate Replied(reply: Option<string>) {
    reply.Some? && reply.value != ""
  }

  /** An empty reply is handled exactly like a failed call by every
      handler that waits for one. */
  lemma EmptyReplyIsNoReply(s: State, response: string, answer: string, config: Config, timestamp: string)
    ensures !s.mockStarted ==> StartInterview(s, Some("")) == StartInterview(s, None) == s
    ensures s.mockStarted ==> SubmitAnswer(s, response, Some("")) == SubmitAnswer(s, response, None)
    ensures s.mockStarted ==> EndInterview(s, config, timestamp, Some("")) == EndInterview(s, config, timestamp, None) == s
    ensures GenerateQuestion(s, Some("")) == GenerateQuestion(s, None) == s
    ensures s.currentQuestion.Some? ==>
              AnalyzeAnswer(s, answer, config, timestamp, Some("")) == AnalyzeAnswer(s, answer, config, timestamp, None) == s
  {
  }

  /** Number of mock-interview records in `h`. */
  function MockRecords(h: seq<Record>): (n: nat)
    ensures n <= |h|
  {
    if h == [] then 0
    else MockRecords(h[..|h| - 1]) + (if h[|h| - 1].MockInterview? then 1 else 0)
  }

  /** What every reachable state satisfies: turns exist exactly while an
      interview is in progress and start with the interviewer's opening;
      the interview counter counts the mock-interview records; and every
      such record holds at least one interviewer question. */
  predicate Valid(s: State): (valid: bool)
    ensures valid ==> (s.mockStarted <==> s.mockMessages != [])
    ensures valid ==> s.interviewCount <= |s.history|
  {
    && (!s.mockStarted ==> s.mockMessages == [])
    && (s.mockStarted ==> s.mockMessages != [] && s.mockMessages[0].role == Interviewer)
    && MockRecords(s.history) == s.interviewCount
    && forall i :: 0 <= i < |s.history| && s.history[i].MockInterview? ==> s.history[i].numQuestions >= 1
  }

  /** The readiness score of a state. */
  function Score(s: State): (score: nat)
    ensures score <= MaxScore
  {
    ReadinessScore(|s.history|, s.interviewCount)
  }

  // ---------------------------------------------------------------------
  // Mock interview
  // ---------------------------------------------------------------------

  /** "Start Mock Interview Now" (shown only while no interview runs): the
      opening reply becomes the only turn and the interview starts; without
      a reply nothing changes. */
  function StartInterview(s: State, reply: Option<string>): (r: State)
    requires !s.mockStarted
    ensures Replied(reply) ==> r.mockStarted && r.mockMessages == [Turn(Interviewer, reply.value)]
    ensures !Replied(reply) ==> r == s
    ensures r.history == s.history && r.interviewCount == s.interviewCount
    ensures r.totalQuestions == s.totalQuestions && r.currentQuestion == s.currentQuestion
  {
    if Replied(reply) then s.(mockMessages := [Turn(Interviewer, reply.value)], mockStarted := true)
    else s
  }

  /** Minimum stripped length of a mock-interview answer. */
  const MinMockAnswerLength: nat := 50

  /** An answer is taken when it is non-empty and at least fifty characters
      remain after stripping surrounding whitespace. */
  predicate AcceptsMockAnswer(response: string): (accepted: bool)
    ensures accepted <==> |Strip(response)| >= MinMockAnswerLength
    ensures accepted ==> |response| >= MinMockAnswerLength && !AllSpace(response)
  {
    response != "" && |Strip(response)| >= MinMockAnswerLength
  }

  /** The request "Submit Answer" sends, or `None` when the answer is
      refused and no request is made. */
  function SubmitPrompt(s: State, response: string): (p: Option<Prompt>)
    requires s.mockStarted
    ensures p.Some? <==> AcceptsMockAnswer(response)
    ensures p.Some? ==> (p.value.Continue? <==> InterviewerCount(s.mockMessages) < InterviewerTurnCap)
  {
    if AcceptsMockAnswer(response) then
      InterviewerCountAppend(s.mockMessages, [Turn(Candidate, response)]);
      Some(NextPrompt(s.mockMessages + [Turn(Candidate, response)]))
    else None
  }

  /** "Submit Answer": a refused answer changes nothing; an accepted one is
      appended as it was typed (unstripped), and the interviewer's reply,
      when there is one, after it. A failed call leaves the candidate turn
      in place. */
  function SubmitAnswer(s: State, response: string, reply: Option<string>): (r: State)
    requires s.mockStarted
    ensures !AcceptsMockAnswer(response) ==> r == s
    ensures AcceptsMockAnswer(response) ==>
              r.mockMessages == s.mockMessages + [Turn(Candidate, response)]
                                + (if Replied(reply) then [Turn(Interviewer, reply.value)] else [])
    ensures s.mockMessages <= r.mockMessages && r.mockStarted
    ensures r.history == s.history && r.interviewCount == s.interviewCount
    ensures r.totalQuestions == s.totalQuestions && r.currentQuestion == s.currentQuestion
  {
    if !AcceptsMockAnswer(response) then s
    else
      var answered := s.mockMessages + [Turn(Candidate, response)];
      if Replied(reply) then s.(mockMessages := answered + [Turn(Interviewer, reply.value)])
      else s.(mockMessages := answered)
  }

  /** "End & Get Feedback": with feedback, exactly one mock-interview record
      holding the transcript and the number of interviewer turns is
      appended, the counter goes up by one and the interview is over;
      without feedback nothing changes. */
  function EndInterview(s: State, config: Config, timestamp: string, feedback: Option<string>): (r: State)
    requires s.mockStarted
    ensures Replied(feedback) ==>
              && r.history == s.history + [MockInterview(timestamp, config, Transcript(s.mockMessages),
                                                         feedback.value, InterviewerCount(s.mockMessages))]
              && r.interviewCount == s.interviewCount + 1
              && r.mockMessages == [] && !r.mockStarted
    ensures !Replied(feedback) ==> r == s
    ensures r.totalQuestions == s.totalQuestions && r.currentQuestion == s.currentQuestion
  {
    if Replied(feedback) then
      var record := MockInterview(timestamp, config, Transcript(s.mockMessages),
                                  feedback.value, InterviewerCount(s.mockMessages));
      s.(history := s.history + [record], interviewCount := s.interviewCount + 1,
         mockMessages := [], mockStarted := false)
    else s
  }

  /** "Restart": the turns are discarded and nothing is recorded. */
  function RestartInterview(s: State): (r: State)
    requires s.mockStarted
    ensures r.mockMessages == [] && !r.mockStarted
    ensures r.history == s.history && r.interviewCount == s.interviewCount
    ensures r.totalQuestions == s.totalQuestions && r.currentQuestion == s.currentQuestion
  {
    s.(mockMessages := [], mockStarted := false)
  }

  // ---------------------------------------------------------------------
  // Quick practice
  // ---------------------------------------------------------------------

  /** "Generate Interview Question": a reply becomes the current question
      and the question counter goes up by exactly one. */
  function GenerateQuestion(s: State, reply: Option<string>): (r: State)
    ensures Replied(reply) ==> r.currentQuestion == reply && r.totalQuestions == s.totalQuestions + 1
    ensures !Replied(reply) ==> r == s
    ensures r.history == s.history && r.interviewCount == s.interviewCount
    ensures r.mockMessages == s.mockMessages && r.mockStarted == s.mockStarted
  {
    if Replied(reply) then s.(currentQuestion := reply, totalQuestions := s.totalQuestions + 1)
    else s
  }

  /** The small refresh button beside a shown question: the question is
      dropped and nothing else changes. */
  function DiscardQuestion(s: State): (r: State)
    requires s.currentQuestion.Some?
    ensures r.currentQuestion == None
    ensures r.history == s.history && r.interviewCount == s.interviewCount
    ensures r.totalQuestions == s.totalQuestions
    ensures r.mockMessages == s.mockMessages && r.mockStarted == s.mockStarted
  {
    s.(currentQuestion := None)
  }

  /** A quick-practice answer is analysed only when it is longer than this
      many characters (not stripped). */
  const QuickAnswerThreshold: nat := 30

  predicate AcceptsQuickAnswer(answer: string): (accepted: bool)
    ensures accepted <==> |answer| > QuickAnswerThreshold
  {
    answer != "" && |answer| > QuickAnswerThreshold
  }

  /** "Get AI Feedback" (shown only while a question is shown): with an
      answer long enough and feedback, exactly one quick-practice record of
      the current question is appended; otherwise nothing changes. */
  function AnalyzeAnswer(s: State, answer: string, config: Config, timestamp: string,
                         feedback: Option<string>): (r: State)
    requires s.currentQuestion.Some?
    ensures AcceptsQuickAnswer(answer) && Replied(feedback) ==>
              r.history == s.history + [QuickPractice(timestamp, s.currentQuestion.value, answer,
                                                      feedback.value, config)]
    ensures !(AcceptsQuickAnswer(answer) && Replied(feedback)) ==> r == s
    ensures r.interviewCount == s.interviewCount && r.totalQuestions == s.totalQuestions
    ensures r.currentQuestion == s.currentQuestion
    ensures r.mockMessages == s.mockMessages && r.mockStarted == s.mockStarted
  {
    if AcceptsQuickAnswer(answer) && Replied(feedback) then
      s.(history := s.history + [QuickPractice(timestamp, s.currentQuestion.value, answer,
                                               feedback.value, config)])
    else s
  }

  // ---------------------------------------------------------------------
  // Button presses and runs of them
  // ---------------------------------------------------------------------

  datatype Action =
    | Start(reply: Option<string>)
    | Submit(response: string, reply: Option<string>)
    | End(config: Config, timestamp: string, feedback: Option<string>)
    | Restart
    | Generate(reply: Option<string>)
    | Discard
    | Analyze(answer: string, config: Config, timestamp: string, feedback: Option<string>)

  /** Whether the page shows the button of `a` in state `s`. */
  predicate Enabled(s: State, a: Action) {
    match a
    case Start(_) => !s.mockStarted
    case Submit(_, _) => s.mockStarted
    case End(_, _, _) => s.mockStarted
    case Restart => s.mockStarted
    case Generate(_) => true
    case Discard => s.currentQuestion.Some?
    case Analyze(_, _, _, _) => s.currentQuestion.Some?
  }

  /** The state after pressing the button of `a`; a button the page does
      not show cannot be pressed, so such an action leaves `s` as it is. */
  function Step(s: State, a: Action): (r: State)
    ensures !Enabled(s, a) ==> r == s
    ensures s.history <= r.history
    ensures s.totalQuestions <= r.totalQuestions && s.interviewCount <= r.interviewCount
  {
    if !Enabled(s, a) then s
    else match a
      case Start(reply) => StartInterview(s, reply)
      case Submit(response, reply) => SubmitAnswer(s, response, reply)
      case End(config, timestamp, feedback) => EndInterview(s, config, timestamp, feedback)
      case Restart => RestartInterview(s)
      case Generate(reply) => GenerateQuestion(s, reply)
      case Discard => DiscardQuestion(s)
      case Analyze(answer, config, timestamp, feedback) => AnalyzeAnswer(s, answer, config, timestamp, feedback)
  }

  /** The state after pressing the buttons of `acts` in order: history
      only grows at its end (records are never changed or removed) and
      neither counter ever decreases. */
  function Run(s: State, acts: seq<Action>): (r: State)
    ensures s.history <= r.history
    ensures s.totalQuestions <= r.totalQuestions && s.interviewCount <= r.interviewCount
    decreases |acts|
  {
    if acts == [] then s else Run(Step(s, acts[0]), acts[1..])
  }

  /** A run of two presses. */
  lemma RunTwo(s: State, a: Action, b: Action)
    ensures Run(s, [a, b]) == Step(Step(s, a), b)
  {
    var t := Step(s, a);
    assert [a, b][1..] == [b] && [b][1..] == [];
    assert Run(s, [a, b]) == Run(t, [b]);
    assert Run(t, [b]) == Run(Step(t, b), []);
  }

  /** A run of three presses. */
  lemma RunThree(s: State, a: Action, b: Action, c: Action)
    ensures Run(s, [a, b, c]) == Step(Step(Step(s, a), b), c)
  {
    assert [a, b, c][1..] == [b, c];
    RunTwo(Step(s, a), b, c);
  }

  /** Appending a record adds one to the mock-record count exactly when the
      record is a mock interview. */
  lemma MockRecordsAppend(h: seq<Record>, rec: Record)
    ensures MockRecords(h + [rec]) == MockRecords(h) + (if rec.MockInterview? then 1 else 0)
  {
    assert (h + [rec])[..|h|] == h;
  }

  /** Appending one record, and counting it when it is a mock interview
      with at least one question, keeps the history part of the invariant. */
  lemma AppendRecordKeepsValid(s: State, rec: Record, r: State)
    requires Valid(s)
    requires r.history == s.history + [rec]
    requires r.interviewCount == s.interviewCount + (if rec.MockInterview? then 1 else 0)
    requires rec.MockInterview? ==> rec.numQuestions >= 1
    requires || (r.mockStarted == s.mockStarted && r.mockMessages == s.mockMessages)
             || (!r.mockStarted && r.mockMessages == [])
    ensures Valid(r)
  {
    MockRecordsAppend(s.history, rec);
    forall i | 0 <= i < |r.history| && r.history[i].MockInterview?
      ensures r.history[i].numQuestions >= 1
    {
      if i < |s.history| { assert r.history[i] == s.history[i]; }
    }
  }

  /** Every button press keeps the session invariant. */
  lemma StepPreservesValid(s: State, a: Action)
    requires Valid(s)
    ensures Valid(Step(s, a))
  {
    if Enabled(s, a) {
      match a
      case Submit(response, reply) =>
        var r := SubmitAnswer(s, response, reply);
        assert r.mockMessages[0] == s.mockMessages[0];
      case End(config, timestamp, feedback) =>
        if Replied(feedback) {
          var r := EndInterview(s, config, timestamp, feedback);
          assert InterviewerCount(s.mockMessages) >= 1;
          AppendRecordKeepsValid(s, r.history[|s.history|], r);
        }
      case Analyze(answer, config, timestamp, feedback) =>
        if AcceptsQuickAnswer(answer) && Replied(feedback) {
          var r := AnalyzeAnswer(s, answer, config, timestamp, feedback);
          AppendRecordKeepsValid(s, r.history[|s.history|], r);
        }
      case _ =>
    }
  }

  /** Every run of button presses keeps the session invariant. */
  lemma {:induction false} RunPreservesValid(s: State, acts: seq<Action>)
    requires Valid(s)
    ensures Valid(Run(s, acts))
    decreases |acts|
  {
    if acts != [] {
      StepPreservesValid(s, acts[0]);
      RunPreservesValid(Step(s, acts[0]), acts[1..]);
    }
  }

  /** Every state a session can reach satisfies the invariant. */
  lemma ReachableValid(acts: seq<Action>)
    ensures Valid(Run(Initial(), acts))
  {
    RunPreservesValid(Initial(), acts);
  }

  /** Over any run the readiness score never decreases. */
  lemma RunNeverLowersScore(s: State, acts: seq<Action>)
    ensures Score(s) <= Score(Run(s, acts))
  {
    var r := Run(s, acts);
    assert |s.history| <= |r.history|;
    ReadinessMonotone(|s.history|, s.interviewCount, |r.history|, r.interviewCount);
  }

  // ---------------------------------------------------------------------
  // Properties of single presses
  // ---------------------------------------------------------------------

  /** A completed interview adds one record whose question count is the
      number of interviewer turns, at least one, and raises the score by
      twenty points up to the cap. */
  lemma EndRecordsOnce(s: State, config: Config, timestamp: string, feedback: Option<string>)
    requires Valid(s) && s.mockStarted && Replied(feedback)
    ensures var r := EndInterview(s, config, timestamp, feedback);
            && |r.history| == |s.history| + 1
            && r.history[|s.history|].MockInterview?
            && r.history[|s.history|].numQuestions == InterviewerCount(s.mockMessages) >= 1
            && Score(r) == if Score(s) + 20 < MaxScore then Score(s) + 20 else MaxScore
  {
    ReadinessStep(|s.history|, s.interviewCount, 1);
  }

  /** An analysed quick-practice answer raises the score by five points up
      to the cap. */
  lemma AnalyzeScoresFive(s: State, answer: string, config: Config, timestamp: string,
                          feedback: Option<string>)
    requires s.currentQuestion.Some? && AcceptsQuickAnswer(answer) && Replied(feedback)
    ensures var r := AnalyzeAnswer(s, answer, config, timestamp, feedback);
            Score(r) == if Score(s) + 5 < MaxScore then Score(s) + 5 else MaxScore
  {
    ReadinessStep(|s.history|, s.interviewCount, 0);
  }

  /** The warning asks for "at least 30 characters", but an answer of
      exactly thirty characters is still refused. */
  lemma ThirtyCharactersRefused(answer: string)
    requires |answer| == 30
    ensures !AcceptsQuickAnswer(answer)
  {
  }

  /** Whitespace padding does not get a short answer accepted. */
  lemma PaddingDoesNotHelp(pre: string, response: string, post: string)
    requires AllSpace(pre) && AllSpace(post) && |Strip(response)| < MinMockAnswerLength
    ensures !AcceptsMockAnswer(pre + response + post)
  {
    StripIgnoresPadding(pre, response, post);
  }

  /** While an interview runs, a "continue" prompt asks question two, three
      or four and embeds the conversation ending with the new answer. */
  lemma ContinueNumbering(s: State, response: string)
    requires Valid(s) && s.mockStarted
    requires SubmitPrompt(s, response).Some? && SubmitPrompt(s, response).value.Continue?
    ensures var p := SubmitPrompt(s, response).value;
            && 2 <= p.questionNumber <= InterviewerTurnCap
            && p.conversation == Conversation(s.mockMessages) + LineSeparator
                                 + ConversationLine(Turn(Candidate, response))
  {
    ContinueEmbedsConversation(s.mockMessages, Turn(Candidate, response));
    assert InterviewerCount(s.mockMessages) >= 1;
  }

  /** The interview has reached the interviewer-turn cap: every accepted
      answer from here on gets the "conclude" prompt. */
  predicate ConcludeReached(s: State) {
    s.mockStarted && InterviewerCount(s.mockMessages) >= InterviewerTurnCap
  }

  /** No press other than a restart or a completed end takes an interview
      back below the cap, so once "conclude" is chosen it keeps being
      chosen until the interview ends or restarts. */
  lemma {:induction false} ConcludeStaysChosen(s: State, acts: seq<Action>)
    requires ConcludeReached(s)
    requires forall k :: 0 <= k < |acts| ==>
               !acts[k].Restart? && !(acts[k].End? && Replied(acts[k].feedback))
    ensures ConcludeReached(Run(s, acts))
    ensures forall response :: AcceptsMockAnswer(response) ==>
              SubmitPrompt(Run(s, acts), response) == Some(Conclude)
    decreases |acts|
  {
    if acts != [] {
      var t := Step(s, acts[0]);
      assert s.mockMessages <= t.mockMessages && t.mockStarted;
      var added := t.mockMessages[|s.mockMessages|..];
      assert t.mockMessages == s.mockMessages + added;
      InterviewerCountAppend(s.mockMessages, added);
      ConcludeStaysChosen(t, acts[1..]);
    }
  }

  /** Unlike a strictly alternating chat, the turns can hold several
      candidate answers in a row: an accepted answer stays even when the
      interviewer's reply fails, and the next accepted answer is appended
      after it. */
  lemma FailedRepliesLeaveCandidateTurns(s: State, first: string, second: string)
    requires s.mockStarted && AcceptsMockAnswer(first) && AcceptsMockAnswer(second)
    ensures var r := Run(s, [Submit(first, None), Submit(second, None)]);
            r.mockMessages == s.mockMessages + [Turn(Candidate, first), Turn(Candidate, second)]
  {
    var a1, a2 := Submit(first, None), Submit(second, None);
    var t := SubmitAnswer(s, first, None);
    var u := SubmitAnswer(t, second, None);
    RunTwo(s, a1, a2);
    assert Step(s, a1) == t;
    assert Step(t, a2) == u;
    assert u.mockMessages == s.mockMessages + [Turn(Candidate, first)] + [Turn(Candidate, second)];
  }

  /** The transcript of a three-turn interview. */
  lemma ThreeTurnTranscript(a: Turn, b: Turn, c: Turn)
    ensures Transcript([a, b, c]) == TranscriptHeader + TranscriptBlock(a) + TranscriptBlock(b) + TranscriptBlock(c)
  {
    var x, y, z := TranscriptBlock(a), TranscriptBlock(b), TranscriptBlock(c);
    assert Blocks([a, b, c]) == [x, y, z];
    ConcatThree(x, y, z);
    AppendAssociates(TranscriptHeader, x, y, z);
  }

  /** The interviewer count of a three-turn interview. */
  lemma ThreeTurnCount(a: Turn, b: Turn, c: Turn)
    ensures InterviewerCount([a, b, c])
              == (if a.role == Interviewer then 1 else 0) + (if b.role == Interviewer then 1 else 0)
                 + (if c.role == Interviewer then 1 else 0)
  {
    assert [c][1..] == [];
    assert InterviewerCount([c]) == (if c.role == Interviewer then 1 else 0);
    assert [b, c][1..] == [c];
    assert InterviewerCount([b, c]) == (if b.role == Interviewer then 1 else 0) + InterviewerCount([c]);
    assert [a, b, c][1..] == [b, c];
  }

  /** Starting, answering once and ending, with every call answered,
      records one interview of two questions whose transcript holds the
      opening, the answer and the follow-up, in that order. */
  lemma OneAnswerInterview(opening: string, answer: string, followUp: string, feedback: string,
                           config: Config, timestamp: string)
    requires opening != "" && followUp != "" && feedback != ""
    requires AcceptsMockAnswer(answer)
    ensures var r := Run(Initial(), [Start(Some(opening)), Submit(answer, Some(followUp)),
                                     End(config, timestamp, Some(feedback))]);
            && r.history == [MockInterview(timestamp, config,
                                           TranscriptHeader + TranscriptBlock(Turn(Interviewer, opening))
                                           + TranscriptBlock(Turn(Candidate, answer))
                                           + TranscriptBlock(Turn(Interviewer, followUp)),
                                           feedback, 2)]
            && r.interviewCount == 1 && r.mockMessages == [] && !r.mockStarted
  {
    var a1, a2, a3 := Start(Some(opening)), Submit(answer, Some(followUp)), End(config, timestamp, Some(feedback));
    var s1 := StartInterview(Initial(), Some(opening));
    var s2 := SubmitAnswer(s1, answer, Some(followUp));
    var s3 := EndInterview(s2, config, timestamp, Some(feedback));
    RunThree(Initial(), a1, a2, a3);
    assert Step(Initial(), a1) == s1;
    assert Step(s1, a2) == s2;
    assert Step(s2, a3) == s3;
    var ms := [Turn(Interviewer, opening), Turn(Candidate, answer), Turn(Interviewer, followUp)];
    assert s2.mockMessages == [ms[0]] + [ms[1]] + [ms[2]] == ms;
    ThreeTurnTranscript(ms[0], ms[1], ms[2]);
    ThreeTurnCount(ms[0], ms[1], ms[2]);
  }
}
