/** `view.ChatController`: the conversation shown for the selected contact,
    sending a message (`ChatData.xml` plus the `ChatData.txt` transcript),
    and exporting the conversation as text. The current and selected users
    are the session's, read once when the chat view opens. */
module Chat {
  import opened Wrappers
  import opened Users
  import opened Messages
  import opened Seqs
  import opened UserStore
  import opened MessageStore
  import opened Sessions

  // ------------------------------------------------------- the conversation

  /** Sent from the current user to the selected one: shown as "Para". */
  predicate Outgoing(m: Message, current: Option<User>, selected: Option<User>) {
    SentBy(m, current) && SentTo(m, selected)
  }

  /** Sent from the selected user to the current one: shown as "De". */
  predicate Incoming(m: Message, current: Option<User>, selected: Option<User>) {
    SentBy(m, selected) && SentTo(m, current)
  }

  /** The test that display and export share: either direction between the
      two users, compared by name as `User.equals` does. */
  predicate InConversation(m: Message, current: Option<User>, selected: Option<User>) {
    Outgoing(m, current, selected) || Incoming(m, current, selected)
  }

  function Between(current: Option<User>, selected: Option<User>): Message -> bool {
    (m: Message) => InConversation(m, current, selected)
  }

  /** The messages of the conversation, in file order. */
  function Conversation(messages: seq<Message>, current: Option<User>, selected: Option<User>): (r: seq<Message>)
    ensures forall k | 0 <= k < |r| :: InConversation(r[k], current, selected)
    ensures forall k | 0 <= k < |messages| && InConversation(messages[k], current, selected) :: messages[k] in r
    ensures IsSubsequence(r, messages)
    ensures multiset(r) <= multiset(messages)
    ensures forall m | m in messages ::
      multiset(r)[m] == if InConversation(m, current, selected) then multiset(messages)[m] else 0
  {
    FilterCounts(messages, Between(current, selected));
    Filter(messages, Between(current, selected))
  }

  /** Without a selected user there is no conversation: `equals(null)` is
      false. */
  lemma NoSelectionNoConversation(messages: seq<Message>, current: Option<User>)
    ensures Conversation(messages, current, None) == []
  {
    forall i | 0 <= i < |messages| ensures !Between(current, None)(messages[i]) {
      assert !SentTo(messages[i], None) && !SentBy(messages[i], None);
    }
    FilterKeepsNone(messages, Between(current, None));
  }

  // --------------------------------------------------------- displayMessages

  /** The list line of one conversation message. */
  function Label(m: Message, current: Option<User>, selected: Option<User>): (line: string)
    requires InConversation(m, current, selected)
  {
    if Outgoing(m, current, selected) then "Para " + selected.value.name + ": " + m.content
    else "De " + selected.value.name + ": " + m.content
  }

  /** The lines one message contributes: its label, or none. */
  function LinesOf(m: Message, current: Option<User>, selected: Option<User>): (r: seq<string>)
    ensures |r| <= 1
  {
    if InConversation(m, current, selected) then [Label(m, current, selected)] else []
  }

  /** The loop of `displayMessages`. */
  function DisplayLines(messages: seq<Message>, current: Option<User>, selected: Option<User>): (r: seq<string>)
    ensures |r| <= |messages|
    decreases |messages|
  {
    if |messages| == 0 then []
    else LinesOf(messages[0], current, selected) + DisplayLines(messages[1..], current, selected)
  }

  /** Messages outside the conversation contribute nothing: displaying all
      messages shows what displaying the conversation alone shows. */
  lemma {:induction false} DisplayOnlyConversation(messages: seq<Message>, current: Option<User>, selected: Option<User>)
    ensures DisplayLines(messages, current, selected) ==
      DisplayLines(Filter(messages, Between(current, selected)), current, selected)
    decreases |messages|
  {
    if |messages| > 0 {
      var m := messages[0];
      var kept := Filter(messages[1..], Between(current, selected));
      DisplayOnlyConversation(messages[1..], current, selected);
      if InConversation(m, current, selected) {
        assert ([m] + kept)[1..] == kept;
      }
    }
  }

  /** Over a conversation every message yields exactly its label. */
  lemma {:induction false} DisplayOfConversation(conversation: seq<Message>, current: Option<User>, selected: Option<User>)
    requires forall k | 0 <= k < |conversation| :: InConversation(conversation[k], current, selected)
    ensures |DisplayLines(conversation, current, selected)| == |conversation|
    ensures forall k | 0 <= k < |conversation| ::
      DisplayLines(conversation, current, selected)[k] == Label(conversation[k], current, selected)
    decreases |conversation|
  {
    if |conversation| > 0 {
      DisplayOfConversation(conversation[1..], current, selected);
    }
  }

  /** One line per conversation message, in file order, each labelled by its
      direction ("Para" when a message is both). */
  lemma DisplayFollowsConversation(messages: seq<Message>, current: Option<User>, selected: Option<User>)
    ensures |DisplayLines(messages, current, selected)| == |Conversation(messages, current, selected)|
    ensures forall k | 0 <= k < |DisplayLines(messages, current, selected)| ::
      DisplayLines(messages, current, selected)[k] == Label(Conversation(messages, current, selected)[k], current, selected)
  {
    DisplayOnlyConversation(messages, current, selected);
    DisplayOfConversation(Conversation(messages, current, selected), current, selected);
  }

  /** Reading more messages only adds lines at the end. */
  lemma {:induction false} DisplayLinesAppend(messages: seq<Message>, more: seq<Message>, current: Option<User>, selected: Option<User>)
    ensures DisplayLines(messages + more, current, selected) ==
      DisplayLines(messages, current, selected) + DisplayLines(more, current, selected)
    decreases |messages|
  {
    if |messages| == 0 {
      assert messages + more == more;
    } else {
      assert (messages + more)[0] == messages[0];
      assert (messages + more)[1..] == messages[1..] + more;
      DisplayLinesAppend(messages[1..], more, current, selected);
    }
  }

  /** `displayMessages`: the lines for the session's users, from the message
      file read against the user file; one per conversation message. */
  function DisplayMessages(codec: Base64, userFile: UserFile, parses: string -> bool, chatFile: MessageFile, s: Session): (r: seq<string>)
    ensures |r| == |Conversation(LoadMessages(codec, userFile, parses, chatFile), s.current, s.selected)|
    ensures s.selected.None? ==> r == []
    ensures forall k | 0 <= k < |r| ::
      r[k] == Label(Conversation(LoadMessages(codec, userFile, parses, chatFile), s.current, s.selected)[k], s.current, s.selected)
  {
    var messages := LoadMessages(codec, userFile, parses, chatFile);
    DisplayFollowsConversation(messages, s.current, s.selected);
    NoSelectionNoConversation(messages, s.current);
    DisplayLines(messages, s.current, s.selected)
  }

  // ---------------------------------------------------------- the transcript

  /** The `ChatData.txt` line `addMessageToTxt` appends. */
  function TranscriptLine(m: Message): (line: string)
    ensures |line| == |m.timestamp| + |m.sender.name| + |m.receiver.name| + |m.content| + 9
    ensures line[0] == '[' && line[|line| - 1] == '\n'
    ensures line[1..1 + |m.timestamp|] == m.timestamp
    ensures var t, a, b := |m.timestamp|, |m.sender.name|, |m.receiver.name|;
      line[1 + t..3 + t] == "] " &&
      line[3 + t..3 + t + a] == m.sender.name &&
      line[3 + t + a..6 + t + a] == " a " &&
      line[6 + t + a..6 + t + a + b] == m.receiver.name &&
      line[6 + t + a + b..8 + t + a + b] == ": "
    ensures line[|line| - 1 - |m.content|..|line| - 1] == m.content
  {
    "[" + m.timestamp + "] " + m.sender.name + " a " + m.receiver.name + ": " + m.content + "\n"
  }

  /** The line `exportConversationToTXT` prints: the transcript text of the
      message, ended by the platform's line separator. */
  function ExportLine(m: Message, lineSeparator: string): (line: string)
  {
    "[" + m.timestamp + "] " + m.sender.name + " a " + m.receiver.name + ": " + m.content + lineSeparator
  }

  /** With a "\n" line separator the export prints the transcript's line. */
  lemma ExportLineIsTranscriptLine(m: Message)
    ensures ExportLine(m, "\n") == TranscriptLine(m)
  {
  }

  /** A line without a line break in its fields has exactly one, at its end. */
  lemma TranscriptLineSingleBreak(m: Message)
    requires '\n' !in m.timestamp && '\n' !in m.sender.name && '\n' !in m.receiver.name && '\n' !in m.content
    ensures forall i | 0 <= i < |TranscriptLine(m)| - 1 :: TranscriptLine(m)[i] != '\n'
  {
    var line := TranscriptLine(m);
    var head := "[" + m.timestamp + "] " + m.sender.name + " a " + m.receiver.name + ": " + m.content;
    assert line == head + "\n";
    forall i | 0 <= i < |line| - 1 ensures line[i] != '\n' {
      assert line[i] == head[i];
      assert head[i] in head;
    }
  }

  /** The whole text the export writes. */
  function ExportText(conversation: seq<Message>, lineSeparator: string): (text: string)
    ensures text == [] <==> conversation == []
    decreases |conversation|
  {
    if |conversation| == 0 then ""
    else ExportLine(conversation[0], lineSeparator) + ExportText(conversation[1..], lineSeparator)
  }

  /** The transcript text of a run of messages. */
  function TranscriptText(messages: seq<Message>): (text: string)
    decreases |messages|
  {
    if |messages| == 0 then "" else TranscriptLine(messages[0]) + TranscriptText(messages[1..])
  }

  /** Exported with "\n", a conversation reads exactly as its transcript. */
  lemma {:induction false} ExportMatchesTranscript(conversation: seq<Message>)
    ensures ExportText(conversation, "\n") == TranscriptText(conversation)
    decreases |conversation|
  {
    if |conversation| > 0 {
      ExportLineIsTranscriptLine(conversation[0]);
      ExportMatchesTranscript(conversation[1..]);
    }
  }

  // ------------------------------------------------------------ sendMessage

  datatype SendOutcome =
    | NothingToSend  // empty field or no selected user: an information alert
    | Sent           // both files written and the line shown
    | SendFailed     // an exception: "No se pudo enviar el mensaje"

  datatype SendResult = SendResult(outcome: SendOutcome, chatFile: MessageFile, transcript: string, shown: seq<string>)

  /** `sendMessage` with `now` the text of `LocalDateTime.now()`. Without a
      current user, writing the sender's name throws before the file is
      written; an unreadable message file throws in the parse. Otherwise the
      record is appended to the file, the line to the transcript, and
      "A <contact>: <content>" to the list. */
  function SendMessage(s: Session, content: Option<string>, now: string, chatFile: MessageFile, transcript: string, shown: seq<string>): (r: SendResult)
    ensures r.outcome == NothingToSend <==> content.None? || content.value == [] || s.selected.None?
    ensures r.outcome == Sent <==>
      content.Some? && content.value != [] && s.selected.Some? && s.current.Some? && !chatFile.UnreadableMessageFile?
    ensures r.outcome != Sent ==> r.chatFile == chatFile && r.transcript == transcript && r.shown == shown
    ensures r.outcome == Sent ==>
      var m := Message(s.current.value, s.selected.value, content.value, now);
      Success(r.chatFile) == AppendMessage(chatFile, m) &&
      r.transcript == transcript + TranscriptLine(m) &&
      r.shown == shown + ["A " + s.selected.value.name + ": " + content.value]
  {
    if content.None? || content.value == [] || s.selected.None? then
      SendResult(NothingToSend, chatFile, transcript, shown)
    else if s.current.None? then
      SendResult(SendFailed, chatFile, transcript, shown)
    else
      var m := NewMessage(s.current.value, s.selected.value, content.value, now);
      match AppendMessage(chatFile, m)
      case Failure(_) => SendResult(SendFailed, chatFile, transcript, shown)
      case Success(written) =>
        SendResult(Sent, written, transcript + TranscriptLine(m),
                   shown + ["A " + s.selected.value.name + ": " + content.value])
  }

  /** An outgoing message read after the others adds its "Para" line last. */
  lemma DisplayOutgoingLast(before: seq<Message>, last: Message, current: Option<User>, selected: Option<User>)
    requires Outgoing(last, current, selected)
    ensures DisplayLines(before + [last], current, selected) ==
      DisplayLines(before, current, selected) + ["Para " + selected.value.name + ": " + last.content]
  {
    DisplayLinesAppend(before, [last], current, selected);
    assert DisplayLines([last], current, selected) == LinesOf(last, current, selected) + DisplayLines([], current, selected);
  }

  /** Read back after the append, a message between stored users is the last
      one, after all those read before. */
  lemma AppendedMessageLast(codec: Base64, userFile: UserFile, parses: string -> bool, chatFile: MessageFile, m: Message)
    requires chatFile.NoMessageFile? ||
      (chatFile.MessageDocument? && !Aborts(LoadUsers(codec, userFile), parses, chatFile.records))
    requires parses(m.timestamp)
    requires exists i | 0 <= i < |LoadUsers(codec, userFile)| :: LoadUsers(codec, userFile)[i].name == m.sender.name
    requires exists i | 0 <= i < |LoadUsers(codec, userFile)| :: LoadUsers(codec, userFile)[i].name == m.receiver.name
    ensures AppendMessage(chatFile, m).Success?
    ensures var before := LoadMessages(codec, userFile, parses, chatFile);
      var after := LoadMessages(codec, userFile, parses, AppendMessage(chatFile, m).value);
      |after| == |before| + 1 && after == before + [after[|before|]] &&
      after[|before|].sender.name == m.sender.name && after[|before|].receiver.name == m.receiver.name &&
      after[|before|].content == m.content
  {
    AppendThenLoad(codec, userFile, parses, chatFile, m);
    assert Kept(LoadUsers(codec, userFile))(RecordOf(m));
    var before := LoadMessages(codec, userFile, parses, chatFile);
    var after := LoadMessages(codec, userFile, parses, AppendMessage(chatFile, m).value);
    SplitLast(after, |before|);
  }

  /** A sent message comes back on the next display as the last line, "Para
      <contact>: <content>", after the lines shown before, when both users
      are stored, the time parses, and the file held no record whose time
      fails to parse. */
  lemma SentMessageDisplayedOnReload(codec: Base64, userFile: UserFile, parses: string -> bool, chatFile: MessageFile,
                                     s: Session, content: string, now: string, transcript: string, shown: seq<string>)
    requires SendMessage(s, Some(content), now, chatFile, transcript, shown).outcome == Sent
    requires parses(now)
    requires exists i | 0 <= i < |LoadUsers(codec, userFile)| :: LoadUsers(codec, userFile)[i].name == s.current.value.name
    requires exists i | 0 <= i < |LoadUsers(codec, userFile)| :: LoadUsers(codec, userFile)[i].name == s.selected.value.name
    requires chatFile.NoMessageFile? ||
      (chatFile.MessageDocument? && !Aborts(LoadUsers(codec, userFile), parses, chatFile.records))
    ensures DisplayMessages(codec, userFile, parses, SendMessage(s, Some(content), now, chatFile, transcript, shown).chatFile, s) ==
      DisplayMessages(codec, userFile, parses, chatFile, s) + ["Para " + s.selected.value.name + ": " + content]
  {
    var m := Message(s.current.value, s.selected.value, content, now);
    var written := SendMessage(s, Some(content), now, chatFile, transcript, shown).chatFile;
    AppendedMessageLast(codec, userFile, parses, chatFile, m);
    assert AppendMessage(chatFile, m).value == written;
    var before := LoadMessages(codec, userFile, parses, chatFile);
    var after := LoadMessages(codec, userFile, parses, written);
    DisplayOutgoingLast(before, after[|before|], s.current, s.selected);
  }

  // -------------------------------------------------- exportConversationToTXT

  datatype ExportOutcome =
    | NoUserSelected   // "Por favor, selecciona un usuario para exportar ..."
    | ExportCancelled  // the save dialog was closed
    | Exported         // the chosen file now holds the conversation

  datatype ExportResult = ExportResult(outcome: ExportOutcome, written: Option<string>)

  /** `exportConversationToTXT`: `chosen` says whether the save dialog
      returned a file; the file is replaced by one printed line per
      conversation message. */
  function ExportConversation(codec: Base64, userFile: UserFile, parses: string -> bool, chatFile: MessageFile,
                              s: Session, chosen: bool, lineSeparator: string): (r: ExportResult)
    ensures r.outcome == NoUserSelected <==> s.selected.None?
    ensures r.outcome == Exported <==> s.selected.Some? && chosen
    ensures r.written.Some? <==> r.outcome == Exported
    ensures r.outcome == Exported ==>
      r.written.value == ExportText(Conversation(LoadMessages(codec, userFile, parses, chatFile), s.current, s.selected), lineSeparator)
  {
    if s.selected.None? then ExportResult(NoUserSelected, None)
    else if !chosen then ExportResult(ExportCancelled, None)
    else
      var conversation := Conversation(LoadMessages(codec, userFile, parses, chatFile), s.current, s.selected);
      ExportResult(Exported, Some(ExportText(conversation, lineSeparator)))
  }

  /** Display and export cover the same messages: one list line per printed
      line, both in file order. */
  lemma DisplayAndExportAgree(codec: Base64, userFile: UserFile, parses: string -> bool, chatFile: MessageFile, s: Session)
    requires s.selected.Some?
    ensures var conversation := Conversation(LoadMessages(codec, userFile, parses, chatFile), s.current, s.selected);
      |DisplayMessages(codec, userFile, parses, chatFile, s)| == |conversation| &&
      ExportConversation(codec, userFile, parses, chatFile, s, true, "\n").written == Some(TranscriptText(conversation))
  {
    var conversation := Conversation(LoadMessages(codec, userFile, parses, chatFile), s.current, s.selected);
    ExportMatchesTranscript(conversation);
  }
}
