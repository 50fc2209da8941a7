# AI Interview Prep: session state machine in Dafny

This project models the per-session state of the interview-practice page in `app.py`. The model covers the values the page keeps between button presses and how each button changes them:
- the practice `history`;
- the counters `total_questions` and `interview_count`;
- the mock-interview turns `mock_messages` and the flag `mock_started`;
- the quick-practice `current_question`.

It also models the three texts that are derived from the state:
- the "Interview Readiness" score;
- the conversation embedded in the "continue" prompt;
- the transcript sent for the final evaluation.

Each button press is one handler run to completion. The reply of the language-model client that a handler waits for is a parameter of type `Option<string>`, where `None` is a failed call. The source tests replies with Python truthiness (`if response:`), so an empty reply counts as no result too (`Session.Replied`).

Files:
- `wrappers.dfy`: the `Option` type.
- `text.dfy`: Python's `str.strip()` over the code points for which `str.isspace()` holds.
- `progress.dfy`: the readiness score.
- `turns.dfy`: the turns, the interviewer count, the conversation, the transcript (specified as a function and built by a loop, as in the source) and the prompt choice.
- `session.dfy`: the state as a value, one transition per button, the session invariant and the lemmas about runs of presses.
- `app_session.dfy`: the state as the page keeps it. It is a class whose fields the handler methods update in place. Each method is proved to produce exactly the state its `Session` transition gives, and to keep the invariant.

Three behaviours of the code are worth stating outright:
- **Consecutive candidate turns.** The candidate's answer is appended before the model is called (app.py:648) and is kept when the call fails (app.py:675-676), so several candidate turns can follow one another (`Session.FailedRepliesLeaveCandidateTurns`).
- **Quick-practice threshold.** The guard admits answers longer than 30 characters, but its warning asks for "at least 30". An answer of exactly 30 characters is refused (`Session.ThirtyCharactersRefused`).
- **History in the readiness score.** The readiness score counts every history record, so a completed mock interview raises it by 20 points: 5 for its record and 15 for the interview (`Session.EndRecordsOnce`).

## Model

| member | source | states |
|---|---|---|
| `Text.IsSpace` | app.py:646 | the whitespace test of `strip()`: the space, tab, newline and carriage return a user types are whitespace, and no printable ASCII character other than the space is |
| `Text.LeadingSpaces` | app.py:646 | the leading run that `strip()` removes: every character in it is whitespace and the character after it is not |
| `Text.TrailingSpaces` | app.py:646 | the trailing run that `strip()` removes: every character in it is whitespace and the character before it is not |
| `Text.Strip` | app.py:646 | `strip()` returns the contiguous middle of the answer. The middle starts and ends with a non-space, only whitespace is cut off on either side, and it is empty exactly when the answer is all whitespace |
| `Text.StripIsTrimmedSlice` | app.py:646 | a slice bounded by non-spaces, with only whitespace outside it, is exactly what `strip()` returns |
| `Text.StripIgnoresPadding` | app.py:646 | whitespace padding on either side never changes the stripped answer |
| `Progress.ReadinessScore` | app.py:259-264 | the score is `min(100, 5*sessions + 15*interviews)`: never above 100, never above the raw sum, and equal to one of the two |
| `Progress.ReadinessMonotone` | app.py:259-264 | the score never decreases when either count grows |
| `Progress.ReadinessStep` | app.py:259-264 | one more record and `k` more interviews raise the score by `5 + 15k` points, capped at 100 |
| `Session.Score` | app.py:259-264 | the score of a session state lies in [0, 100] |
| `Turns.InterviewerCount` | app.py:650 | the number of interviewer turns is at most the number of turns |
| `Turns.InterviewerCountAppend` | app.py:650 | the interviewer count of a concatenation is the sum of the counts, so appending turns never lowers it |
| `Turns.ConversationLineParts` | app.py:654 | the `INTERVIEWER`/`CANDIDATE` tag opens the line and the content follows `: ` unchanged |
| `Turns.ConversationLineInjective` | app.py:654 | a line tells who spoke and what was said: two different turns never give the same line |
| `Turns.Join` | app.py:653 | `sep.join` of no parts is empty, of one part is that part with no separator, and is never shorter than its first part |
| `Turns.Conversation` | app.py:653-656 | the joined conversation is empty exactly when there are no turns |
| `Turns.JoinSplit` | app.py:653-656 | joining a list with a separator, as `"\n\n".join` does, and splitting it between two non-empty parts gives the join of the first part, one separator and the join of the rest |
| `Turns.ConversationSplit` | app.py:653-656 | splitting the turns at any point splits the conversation at a blank-line separator, so every turn is embedded once and in order |
| `Turns.ConversationAppend` | app.py:653-656 | appending a turn appends exactly a separator and that turn's line |
| `Turns.TranscriptBlockParts` | app.py:685-686 | a block is the speaker label, a newline, the content unchanged and the closing `---` rule |
| `Turns.TranscriptBlockInjective` | app.py:685-686 | a block tells who spoke and what was said: two different turns never give the same block |
| `Turns.TranscriptStartsWithHeader` | app.py:683-686 | every transcript opens with the `# Mock Interview Transcript` header, and with no messages it is the header alone |
| `Turns.ConcatAppend` | app.py:684-686 | appending blocks with `+=` is associative: the text of two runs of blocks is the text of the first followed by the text of the second |
| `Turns.ConcatAt` | app.py:684-686 | the text of a run of blocks holds each block once, between the text of the blocks before it and the text of the blocks after it |
| `Turns.TranscriptBlockAt` | app.py:683-686 | the block of turn `i` comes right after the transcript of turns `0..i` and right before the blocks of the later turns: one labelled block per message, in message order |
| `Turns.TranscriptExtend` | app.py:684-686 | one more message extends the transcript by exactly that message's block |
| `Turns.BuildTranscript` | app.py:683-686 | the loop that appends one block per message with `+=` produces exactly `Transcript(messages)` |
| `Turns.NextPrompt` | app.py:650-673 | fewer than 4 interviewer turns select the "continue" prompt, with a question number from 1 to 4. Otherwise the "conclude" prompt is selected |
| `Turns.ConcludeIsFinal` | app.py:650-673 | once "conclude" is selected, appending any turns keeps it selected |
| `Turns.ContinueEmbedsConversation` | app.py:650-666 | the "continue" prompt embeds the previous conversation followed by the new turn's line. Its question number is one past the interviewer count |
| `Session.MockRecords` | app.py:725-736 | the number of mock-interview records is at most the history length |
| `Session.MockRecordsAppend` | app.py:725-736 | appending a record adds one to that number exactly when the record is a mock interview |
| `Session.Initial` | app.py:218-239 | a fresh session satisfies the session invariant and has a readiness score of 0 |
| `Session.EmptyReplyIsNoReply` | app.py:432-434 | the `if response:` truth test (also at app.py:497, 598, 675 and 710) treats an empty reply exactly like a failed call in every handler |
| `Session.StartInterview` | app.py:585-601 | with a reply, the turns become exactly one interviewer turn holding it and the interview starts. Without one, nothing changes. History and counters are untouched |
| `Session.AcceptsMockAnswer` | app.py:645-646 | an answer is accepted exactly when at least 50 characters remain after `strip()` (the emptiness test adds nothing), so an accepted answer is at least 50 characters long and not all whitespace |
| `Session.SubmitPrompt` | app.py:645-673 | a request is made exactly when the answer is non-empty and has at least 50 characters after `strip()`. The request is "continue" exactly when the interviewer count is below 4 |
| `Session.SubmitAnswer` | app.py:645-679 | a refused answer changes nothing. An accepted answer is appended unstripped as one candidate turn, followed by an interviewer turn only if the model replied. Turns are only appended, and history and counters are untouched |
| `Session.EndInterview` | app.py:681-738 | with feedback: exactly one `Mock Interview` record is appended, holding the transcript and `num_questions` = the interviewer count. `interview_count` rises by 1 and the turns are emptied and the flag cleared. Without feedback: nothing changes |
| `Session.RestartInterview` | app.py:640-643 | the turns are emptied and the flag cleared. History, `interview_count` and `total_questions` are untouched |
| `Session.GenerateQuestion` | app.py:419-436 | a reply becomes the current question and `total_questions` rises by exactly 1. Without one, nothing changes |
| `Session.DiscardQuestion` | app.py:470-472 | only the current question is removed |
| `Session.AcceptsQuickAnswer` | app.py:475 | an answer is analysed exactly when it is longer than 30 characters (the emptiness test adds nothing) |
| `Session.AnalyzeAnswer` | app.py:474-515 | an answer longer than 30 characters with feedback appends exactly one `Quick Practice` record of the current question. Otherwise nothing changes, and the counters are never touched |
| `Session.Valid` | app.py:218-738 | the session invariant; a valid state has turns exactly while an interview runs and never counts more interviews than history records |
| `Session.Step` | app.py:419-738 | one button press: a press whose button is not shown changes nothing, history is only appended to, and neither counter decreases |
| `Session.AppendRecordKeepsValid` | app.py:725-736 | appending one counted record keeps the invariant |
| `Session.StepPreservesValid` | app.py:419-738 | every button press keeps the session invariant. The turns are non-empty and open with the interviewer exactly while an interview runs, `interview_count` equals the number of mock records, and every mock record has at least one question |
| `Session.RunPreservesValid` | app.py:419-738 | every sequence of presses keeps the invariant |
| `Session.ReachableValid` | app.py:218-738 | every state reachable from a fresh session satisfies the invariant |
| `Session.Run` | app.py:419-738 | over any sequence of presses: history is only appended to, and `total_questions` and `interview_count` never decrease |
| `Session.RunNeverLowersScore` | app.py:259-264 | over any sequence of presses the readiness score never decreases |
| `Session.EndRecordsOnce` | app.py:725-736 | ending with feedback adds exactly one mock record, whose question count is the interviewer count and at least 1. It raises the score by 20 points, capped at 100 |
| `Session.AnalyzeScoresFive` | app.py:502-511 | an analysed answer raises the score by 5 points, capped at 100 |
| `Session.ThirtyCharactersRefused` | app.py:475-515 | an answer of exactly 30 characters is refused, although the warning asks for "at least 30" |
| `Session.PaddingDoesNotHelp` | app.py:645-646 | an answer with fewer than 50 stripped characters is refused however much whitespace surrounds it |
| `Session.ContinueNumbering` | app.py:650-666 | during an interview a "continue" prompt asks question 2, 3 or 4. It embeds the conversation followed by the new answer's `CANDIDATE:` line |
| `Session.ConcludeStaysChosen` | app.py:650-673 | once the cap is reached, every press that keeps the interview running (anything but Restart or an End that gets feedback) keeps it reached, and every accepted answer gets the "conclude" prompt |
| `Session.FailedRepliesLeaveCandidateTurns` | app.py:645-677 | two accepted answers whose replies fail leave two consecutive candidate turns |
| `Session.ThreeTurnTranscript` | app.py:683-686 | the transcript of three turns is the header and their three blocks, in order |
| `Session.ThreeTurnCount` | app.py:650 | the interviewer count of three turns counts each interviewer turn once |
| `Session.OneAnswerInterview` | app.py:585-738 | start, one accepted answer and end, with every call answered, record exactly one interview. It has 2 questions and its transcript holds the opening, the answer and the follow-up, in that order |
| `App.InterviewSession.constructor` | app.py:218-239 | a fresh session has empty history and turns, zero counters, no interview running and no question |
| `App.InterviewSession.StartInterview` | app.py:585-601 | updates the fields exactly as `Session.StartInterview` and keeps the invariant |
| `App.InterviewSession.SubmitAnswer` | app.py:645-679 | returns the request of `Session.SubmitPrompt`, updates the fields exactly as `Session.SubmitAnswer` and keeps the invariant |
| `App.InterviewSession.EndInterview` | app.py:681-738 | returns the transcript of the turns before the call, updates the fields exactly as `Session.EndInterview` and keeps the invariant |
| `App.InterviewSession.RestartInterview` | app.py:640-643 | updates the fields exactly as `Session.RestartInterview` and keeps the invariant |
| `App.InterviewSession.GenerateQuestion` | app.py:419-436 | updates the fields exactly as `Session.GenerateQuestion` and keeps the invariant |
| `App.InterviewSession.DiscardQuestion` | app.py:470-472 | updates the fields exactly as `Session.DiscardQuestion` and keeps the invariant |
| `App.InterviewSession.AnalyzeAnswer` | app.py:474-515 | updates the fields exactly as `Session.AnalyzeAnswer` and keeps the invariant |

## Left out

- The language-model client `call_groq_api` (app.py:245-257) is a network call. Each handler takes its reply as an `Option<string>` parameter.
- The natural-language wording of every prompt is not modelled. The model keeps only which prompt is chosen, the question number and the embedded conversation or transcript.
- Rendering is not modelled: the markup, styling, tabs, columns, spinners, balloons and the re-run after a press. Warnings and errors are only displayed, so they are not modelled either.
- Buttons appear only in some states, and the handler methods require those states:
  - "Start" appears while no interview runs.
  - "Submit", "End" and "Restart" appear while one runs.
  - "Get AI Feedback" and the refresh button appear while a question is shown.
  
  In `Session.Run`, pressing a button that is not shown changes nothing.
- The "Check Mistakes" button (app.py:517-528) and the sidebar's salary and company tools (app.py:365-393) only display a model reply and change no state.
- Profile saving (app.py:322-324) is a plain overwrite of a field nothing else reads.
- Timestamps and download file names depend on the clock. Timestamps are opaque text parameters. The download buttons (app.py:714-723) only offer the transcript and feedback for download.
- The API-key check at startup (app.py:281-285) reads the environment.
- The motivational message (app.py:266-275) is a random choice.
- `achievements`, `streak_days`, `total_practice_time` and `checklist` are never updated.
- Tabs 3 to 6 (app.py:775-789) are empty.
