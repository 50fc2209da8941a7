/** The session state as the page keeps it: one object whose fields the
    button handlers update in place. Each handler is proved to take the
    state exactly as the matching transition of `Session` does, and to keep
    the session invariant. */
module App {
  import opened Wrappers
  import opened Text
  import opened Turns
  import Session

  class InterviewSession {
    var history: seq<Session.Record>
    var totalQuestions: nat
    var mockMessages: seq<Turn>
    var mockStarted: bool
    var interviewCount: nat
    var currentQuestion: Option<string>

    /** The fields as one value. */
    function State(): Session.State
      reads this
    {
      Session.State(history, totalQuestions, mockMessages, mockStarted, interviewCount, currentQuestion)
    }

    predicate Valid()
      reads this
    {
      Session.Valid(State())
    }

    /** A fresh session: every field at its default. */
    constructor ()
      ensures State() == Session.Initial() && Valid()
    {
      history := [];
      totalQuestions := 0;
      mockMessages := [];
      mockStarted := false;
      interviewCount := 0;
      currentQuestion := None;
    }

    method StartInterview(reply: Option<string>)
      requires Valid() && !mockStarted
      modifies this
      ensures Valid()
      ensures State() == Session.StartInterview(old(State()), reply)
    {
      ghost var before := State();
      if Session.Replied(reply) {
        mockMessages := [Turn(Interviewer, reply.value)];
        mockStarted := true;
      }
      Session.StepPreservesValid(before, Session.Start(reply));
    }

    /** Returns the request sent to the interviewer, `None` when the answer
        is refused. */
    method SubmitAnswer(response: string, reply: Option<string>) returns (prompt: Option<Prompt>)
      requires Valid() && mockStarted
      modifies this
      ensures Valid()
      ensures prompt == Session.SubmitPrompt(old(State()), response)
      ensures State() == Session.SubmitAnswer(old(State()), response, reply)
    {
      ghost var before := State();
      prompt := None;
      if Session.AcceptsMockAnswer(response) {
        var answered := mockMessages + [Turn(Candidate, response)];
        mockMessages := answered;
        var count := InterviewerCount(answered);
        if count < InterviewerTurnCap {
          prompt := Some(Continue(Conversation(answered), count + 1));
        } else {
          prompt := Some(Conclude);
        }
        assert prompt == Some(NextPrompt(answered));
        if Session.Replied(reply) {
          mockMessages := answered + [Turn(Interviewer, reply.value)];
        }
      }
      assert Session.Step(before, Session.Submit(response, reply)) == Session.SubmitAnswer(before, response, reply);
      Session.StepPreservesValid(before, Session.Submit(response, reply));
    }

    /** Returns the transcript sent for evaluation, built whether or not
        feedback comes back. */
    method EndInterview(config: Session.Config, timestamp: string, feedback: Option<string>)
      returns (transcript: string)
      requires Valid() && mockStarted
      modifies this
      ensures Valid()
      ensures transcript == Transcript(old(mockMessages))
      ensures State() == Session.EndInterview(old(State()), config, timestamp, feedback)
    {
      ghost var before := State();
      transcript := BuildTranscript(mockMessages);
      if Session.Replied(feedback) {
        var numQuestions := InterviewerCount(mockMessages);
        history := history + [Session.MockInterview(timestamp, config, transcript, feedback.value, numQuestions)];
        interviewCount := interviewCount + 1;
        mockMessages := [];
        mockStarted := false;
      }
      Session.StepPreservesValid(before, Session.End(config, timestamp, feedback));
    }

    method RestartInterview()
      requires Valid() && mockStarted
      modifies this
      ensures Valid()
      ensures State() == Session.RestartInterview(old(State()))
    {
      mockMessages := [];
      mockStarted := false;
    }

    method GenerateQuestion(reply: Option<string>)
      requires Valid()
      modifies this
      ensures Valid()
      ensures State() == Session.GenerateQuestion(old(State()), reply)
    {
      if Session.Replied(reply) {
        currentQuestion := reply;
        totalQuestions := totalQuestions + 1;
      }
    }

    method DiscardQuestion()
      requires Valid() && currentQuestion.Some?
      modifies this
      ensures Valid()
      ensures State() == Session.DiscardQuestion(old(State()))
    {
      currentQuestion := None;
    }

    method AnalyzeAnswer(answer: string, config: Session.Config, timestamp: string, feedback: Option<string>)
      requires Valid() && currentQuestion.Some?
      modifies this
      ensures Valid()
      ensures State() == Session.AnalyzeAnswer(old(State()), answer, config, timestamp, feedback)
    {
      ghost var before := State();
      if Session.AcceptsQuickAnswer(answer) {
        if Session.Replied(feedback) {
          history := history + [Session.QuickPractice(timestamp, currentQuestion.value, answer,
                                                      feedback.value, config)];
        }
      }
      Session.StepPreservesValid(before, Session.Analyze(answer, config, timestamp, feedback));
    }
  }
}
