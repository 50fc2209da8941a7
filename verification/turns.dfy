/** The turns of a mock interview and the two texts built from them: the
    conversation embedded in the "continue" prompt and the transcript sent
    for the final evaluation; and the choice between the "continue" and the
    "conclude" prompt. */
module Turns {

  datatype Role = Interviewer | Candidate

  /** One message of the mock interview (a `mock_messages` entry). */
  datatype Turn = Turn(role: Role, content: string)

  /** Number of interviewer turns in `ms`. */
  function InterviewerCount(ms: seq<Turn>): (n: nat)
    ensures n <= |ms|
  {
    if ms == [] then 0
    else (if ms[0].role == Interviewer then 1 else 0) + InterviewerCount(ms[1..])
  }

  /** The count is additive over concatenation, so appending turns never
      lowers it. */
  lemma {:induction false} InterviewerCountAppend(a: seq<Turn>, b: seq<Turn>)
    ensures InterviewerCount(a + b) == InterviewerCount(a) + InterviewerCount(b)
  {
    if a == [] {
      assert a + b == b;
    } else {
      assert (a + b)[1..] == a[1..] + b;
      InterviewerCountAppend(a[1..], b);
    }
  }

  // ---------------------------------------------------------------------
  // Conversation embedded in the "continue" prompt
  // ---------------------------------------------------------------------

  function SpeakerTag(r: Role): string {
    if r == Interviewer then "INTERVIEWER" else "CANDIDATE"
  }

  /** `TAG: content` for one turn: the tag names the speaker and the
      content follows the colon unchanged. */
  function ConversationLine(t: Turn): string {
    SpeakerTag(t.role) + ": " + t.content
  }

  /** The tag opens the line and the content follows the colon unchanged. */
  lemma ConversationLineParts(t: Turn)
    ensures |SpeakerTag(t.role)| + 2 <= |ConversationLine(t)|
    ensures ConversationLine(t)[..|SpeakerTag(t.role)|] == SpeakerTag(t.role)
    ensures ConversationLine(t)[|SpeakerTag(t.role)| + 2..] == t.content
  {
  }

  /** A line tells who spoke and what was said: different turns give
      different lines. */
  lemma ConversationLineInjective(t: Turn, u: Turn)
    requires ConversationLine(t) == ConversationLine(u)
    ensures t == u
  {
    ConversationLineParts(t);
    ConversationLineParts(u);
    var line := ConversationLine(t);
    assert line[0] == SpeakerTag(t.role)[0] == SpeakerTag(u.role)[0];
  }

  const LineSeparator := "\n\n"

  /** Python's `sep.join(parts)`. */
  function Join(sep: string, parts: seq<string>): (joined: string)
    ensures parts == [] ==> joined == []
    ensures parts != [] ==> |parts[0]| <= |joined|
    ensures |parts| == 1 ==> joined == parts[0]
  {
    if parts == [] then ""
    else if |parts| == 1 then parts[0]
    else parts[0] + sep + Join(sep, parts[1..])
  }

  /** Joining a split list is joining the two halves with one more
      separator. */
  lemma {:induction false} JoinSplit(sep: string, parts: seq<string>, i: nat)
    requires 0 < i < |parts|
    ensures Join(sep, parts) == Join(sep, parts[..i]) + sep + Join(sep, parts[i..])
  {
    if i > 1 {
      var head, tail := parts[0], parts[1..];
      JoinSplit(sep, tail, i - 1);
      assert parts[..i][1..] == tail[..i - 1];
      assert tail[i - 1..] == parts[i..];
      var a, b := Join(sep, tail[..i - 1]), Join(sep, parts[i..]);
      assert head + sep + (a + sep + b) == (head + sep + a) + sep + b;
    } else {
      assert parts[..1] == [parts[0]];
    }
  }

  /** One `TAG: content` line per turn. */
  function Lines(ms: seq<Turn>): (lines: seq<string>)
    ensures |lines| == |ms|
    ensures forall k :: 0 <= k < |ms| ==> lines[k] == ConversationLine(ms[k])
  {
    seq(|ms|, k requires 0 <= k < |ms| => ConversationLine(ms[k]))
  }

  /** The lines of all turns joined by a blank line. */
  function Conversation(ms: seq<Turn>): (c: string)
    ensures c == [] <==> ms == []
  {
    assert ms != [] ==> |Lines(ms)[0]| >= |SpeakerTag(ms[0].role)| + 2;
    Join(LineSeparator, Lines(ms))
  }

  /** Splitting the turns anywhere splits the conversation at a separator:
      every turn appears, once, in order. */
  lemma ConversationSplit(ms: seq<Turn>, i: nat)
    requires 0 < i < |ms|
    ensures Conversation(ms) == Conversation(ms[..i]) + LineSeparator + Conversation(ms[i..])
  {
    JoinSplit(LineSeparator, Lines(ms), i);
    assert Lines(ms)[..i] == Lines(ms[..i]);
    assert Lines(ms)[i..] == Lines(ms[i..]);
  }

  /** Appending a turn appends exactly its line after a separator. */
  lemma ConversationAppend(ms: seq<Turn>, t: Turn)
    requires ms != []
    ensures Conversation(ms + [t]) == Conversation(ms) + LineSeparator + ConversationLine(t)
  {
    var all := ms + [t];
    ConversationSplit(all, |ms|);
    assert all[..|ms|] == ms;
    assert all[|ms|..] == [t];
  }

  // ---------------------------------------------------------------------
  // Transcript sent for the final evaluation
  // ---------------------------------------------------------------------

  const TranscriptHeader := "# Mock Interview Transcript\n\n"

  function BlockLabel(r: Role): string {
    if r == Interviewer then "**\U{1F916} INTERVIEWER**" else "**\U{1F464} YOU**"
  }

  /** Closes every block: a blank line, a horizontal rule, a blank line. */
  const BlockRule := "\n\n---\n\n"

  /** The labelled block of one turn: the label on its own line, the
      content unchanged, then the rule. */
  function TranscriptBlock(t: Turn): string {
    BlockLabel(t.role) + "\n" + t.content + BlockRule
  }

  /** The label opens the block, the content follows on the next line
      unchanged, and the rule closes it. */
  lemma TranscriptBlockParts(t: Turn)
    ensures |BlockLabel(t.role)| + 1 + |BlockRule| <= |TranscriptBlock(t)|
    ensures TranscriptBlock(t)[..|BlockLabel(t.role)|] == BlockLabel(t.role)
    ensures TranscriptBlock(t)[|BlockLabel(t.role)| + 1..|TranscriptBlock(t)| - |BlockRule|] == t.content
    ensures TranscriptBlock(t)[|TranscriptBlock(t)| - |BlockRule|..] == BlockRule
  {
  }

  /** A block tells who spoke and what was said: different turns give
      different blocks. */
  lemma TranscriptBlockInjective(t: Turn, u: Turn)
    requires TranscriptBlock(t) == TranscriptBlock(u)
    ensures t == u
  {
    TranscriptBlockParts(t);
    TranscriptBlockParts(u);
    var block := TranscriptBlock(t);
    assert block[2] == BlockLabel(t.role)[2] == BlockLabel(u.role)[2];
  }

  /** The concatenation of `parts`, in order. */
  function Concat(parts: seq<string>): string {
    if parts == [] then "" else Concat(parts[..|parts| - 1]) + parts[|parts| - 1]
  }

  /** Concatenation distributes over appending lists. */
  lemma {:induction false} ConcatAppend(a: seq<string>, b: seq<string>)
    ensures Concat(a + b) == Concat(a) + Concat(b)
    decreases |b|
  {
    if b == [] {
      assert a + b == a;
    } else {
      var front, last := b[..|b| - 1], b[|b| - 1];
      assert (a + b)[..|a + b| - 1] == a + front;
      ConcatAppend(a, front);
      assert Concat(a) + Concat(front) + last == Concat(a) + (Concat(front) + last);
    }
  }

  /** One block per turn. */
  function Blocks(ms: seq<Turn>): (blocks: seq<string>)
    ensures |blocks| == |ms|
    ensures forall k :: 0 <= k < |ms| ==> blocks[k] == TranscriptBlock(ms[k])
  {
    seq(|ms|, k requires 0 <= k < |ms| => TranscriptBlock(ms[k]))
  }

  /** The header followed by the block of each turn, in order. */
  function Transcript(ms: seq<Turn>): string {
    TranscriptHeader + Concat(Blocks(ms))
  }

  /** Every transcript opens with the header; with no messages it is the
      header alone. */
  lemma TranscriptStartsWithHeader(ms: seq<Turn>)
    ensures |TranscriptHeader| <= |Transcript(ms)|
    ensures Transcript(ms)[..|TranscriptHeader|] == TranscriptHeader
    ensures ms == [] ==> Transcript(ms) == TranscriptHeader
  {
  }

  /** Concatenation around one part: what precedes it, the part, and what
      follows it. */
  lemma {:induction false} ConcatAt(parts: seq<string>, i: nat)
    requires i < |parts|
    ensures Concat(parts) == Concat(parts[..i]) + parts[i] + Concat(parts[i + 1..])
    decreases |parts|
  {
    var n := |parts|;
    var front, last := parts[..n - 1], parts[n - 1];
    if i == n - 1 {
      assert parts[i + 1..] == [];
    } else {
      ConcatAt(front, i);
      var rest := parts[i + 1..];
      assert front[..i] == parts[..i] && front[i] == parts[i];
      assert rest[..|rest| - 1] == front[i + 1..] && rest[|rest| - 1] == last;
      var x, y, z := Concat(parts[..i]), parts[i], Concat(front[i + 1..]);
      assert x + y + z + last == x + y + (z + last);
    }
  }

  /** The blocks of a prefix of the turns are that prefix of the blocks. */
  lemma BlocksTake(ms: seq<Turn>, n: nat)
    requires n <= |ms|
    ensures Blocks(ms[..n]) == Blocks(ms)[..n]
  {
  }

  /** The blocks of a suffix of the turns are that suffix of the blocks. */
  lemma BlocksDrop(ms: seq<Turn>, n: nat)
    requires n <= |ms|
    ensures Blocks(ms[n..]) == Blocks(ms)[n..]
  {
    var l, r := Blocks(ms[n..]), Blocks(ms)[n..];
    assert |l| == |r|;
    forall k | 0 <= k < |l| ensures l[k] == r[k] {
      assert ms[n..][k] == ms[n + k];
    }
  }

  /** The transcript holds the block of turn `i` right after the transcript
      of the turns before it and right before the blocks of the turns after
      it: one labelled block per message, in message order. */
  lemma TranscriptBlockAt(ms: seq<Turn>, i: nat)
    requires i < |ms|
    ensures Transcript(ms) == Transcript(ms[..i]) + TranscriptBlock(ms[i]) + Concat(Blocks(ms[i + 1..]))
  {
    var bs := Blocks(ms);
    ConcatAt(bs, i);
    BlocksTake(ms, i);
    BlocksDrop(ms, i + 1);
    AppendAssociates(TranscriptHeader, Concat(bs[..i]), bs[i], Concat(bs[i + 1..]));
  }

  /** Regrouping a concatenation, kept apart so that the solver meets it
      on four plain strings rather than inside a larger proof. */
  lemma AppendAssociates(h: string, a: string, x: string, c: string)
    ensures h + (a + x + c) == h + a + x + c
  {
  }

  /** The concatenation of three parts. */
  lemma ConcatThree(x: string, y: string, z: string)
    ensures Concat([x, y, z]) == x + y + z
  {
    assert [x, y, z][..2] == [x, y] && [x, y][..1] == [x] && [x][..0] == [];
    assert Concat([x]) == x;
    assert Concat([x, y]) == x + y;
  }

  /** The transcript of one more message is the previous transcript plus
      that message's block. */
  lemma TranscriptExtend(ms: seq<Turn>, i: nat)
    requires i < |ms|
    ensures Transcript(ms[..i + 1]) == Transcript(ms[..i]) + TranscriptBlock(ms[i])
  {
    BlocksTake(ms[..i + 1], i);
    assert ms[..i + 1][..i] == ms[..i];
    ConcatAt(Blocks(ms[..i + 1]), i);
  }

  /** Builds the transcript the way the end-of-interview handler does: the
      header, then one `+=` of a block per message. */
  method BuildTranscript(ms: seq<Turn>) returns (transcript: string)
    ensures transcript == Transcript(ms)
  {
    transcript := TranscriptHeader;
    var i := 0;
    while i < |ms|
      invariant 0 <= i <= |ms|
      invariant transcript == Transcript(ms[..i])
    {
      TranscriptExtend(ms, i);
      transcript := transcript + TranscriptBlock(ms[i]);
      i := i + 1;
    }
    assert ms[..i] == ms;
  }

  // ---------------------------------------------------------------------
  // Prompt choice after a candidate answer
  // ---------------------------------------------------------------------

  /** Interviewer turns after which the interviewer concludes. */
  const InterviewerTurnCap: nat := 4

  /** The request made after a candidate answer: ask question number
      `questionNumber` with the conversation so far, or conclude. The
      natural-language wording of either prompt is not modelled. */
  datatype Prompt = Continue(conversation: string, questionNumber: nat) | Conclude

  /** The prompt chosen for the turns `ms`, which already end with the new
      candidate answer. */
  function NextPrompt(ms: seq<Turn>): (p: Prompt)
    ensures p.Continue? <==> InterviewerCount(ms) < InterviewerTurnCap
    ensures p.Continue? ==> 1 <= p.questionNumber <= InterviewerTurnCap
  {
    var count := InterviewerCount(ms);
    if count < InterviewerTurnCap then Continue(Conversation(ms), count + 1) else Conclude
  }

  /** Once the conclude prompt is chosen, appending turns of any kind keeps
      it chosen: the switch never reverts. */
  lemma ConcludeIsFinal(ms: seq<Turn>, more: seq<Turn>)
    requires NextPrompt(ms) == Conclude
    ensures NextPrompt(ms + more) == Conclude
  {
    InterviewerCountAppend(ms, more);
  }

  /** The continue prompt numbers the next question one past the
      interviewer turns so far and embeds the conversation of every turn. */
  lemma ContinueEmbedsConversation(ms: seq<Turn>, t: Turn)
    requires ms != [] && NextPrompt(ms + [t]).Continue?
    ensures NextPrompt(ms + [t]).conversation == Conversation(ms) + LineSeparator + ConversationLine(t)
    ensures NextPrompt(ms + [t]).questionNumber
              == InterviewerCount(ms) + (if t.role == Interviewer then 1 else 0) + 1
  {
    ConversationAppend(ms, t);
    InterviewerCountAppend(ms, [t]);
    assert [t][1..] == [];
  }
}
