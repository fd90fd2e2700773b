/** The message half of `utils.XmlReader` and the document append of
    `ChatController.addMessageToXML`: `ChatData.xml` as records. */
module MessageStore {
  import opened Wrappers
  import opened Users
  import opened Messages
  import opened UserStore
  import opened Seqs

  /** A `<message>` element: sender name, receiver name, content, timestamp text. */
  datatype MessageRecord = MessageRecord(sender: string, receiver: string, content: string, timestamp: string)

  /** The message file as the DOM parser finds it. */
  datatype MessageFile = NoMessageFile | UnreadableMessageFile | MessageDocument(records: seq<MessageRecord>)

  /** The two `findUserByName` lookups of one record: a message carrying the
      users found, or `None` when either name is unknown. */
  function ResolveRecord(users: seq<User>, rec: MessageRecord): (r: Option<Message>)
    ensures r.Some? <==>
      FindUserByName(users, rec.sender).Some? && FindUserByName(users, rec.receiver).Some?
    ensures r.Some? ==>
      r.value.sender.name == rec.sender && r.value.receiver.name == rec.receiver &&
      r.value.content == rec.content && r.value.timestamp == rec.timestamp
    ensures r.Some? ==> r.value.sender in users && r.value.receiver in users
  {
    match (FindUserByName(users, rec.sender), FindUserByName(users, rec.receiver))
    case (Some(s), Some(t)) => Some(Message(s, t, rec.content, rec.timestamp))
    case _ => None
  }

  /** The records `getMessagesFromXML` keeps: both names resolve. */
  function Kept(users: seq<User>): MessageRecord -> bool {
    rec => ResolveRecord(users, rec).Some?
  }

  /** A kept record whose timestamp `LocalDateTime.parse` rejects: the
      exception leaves the loop. */
  predicate Throws(users: seq<User>, parses: string -> bool, rec: MessageRecord) {
    Kept(users)(rec) && !parses(rec.timestamp)
  }

  ghost predicate Aborts(users: seq<User>, parses: string -> bool, rs: seq<MessageRecord>) {
    exists i | 0 <= i < |rs| :: Throws(users, parses, rs[i])
  }

  /** The loop of `getMessagesFromXML`: unresolved records are skipped, the
      rest become messages in document order, and a timestamp that does not
      parse ends the loop with the messages built so far. */
  function Resolve(users: seq<User>, parses: string -> bool, rs: seq<MessageRecord>): (r: seq<Message>)
    ensures !Aborts(users, parses, rs) ==> |r| == |Filter(rs, Kept(users))|
    ensures !Aborts(users, parses, rs) ==>
      forall k | 0 <= k < |r| :: ResolveRecord(users, Filter(rs, Kept(users))[k]) == Some(r[k])
    ensures |r| <= |rs|
    decreases |rs|
  {
    if |rs| == 0 then []
    else
      var rest := Resolve(users, parses, rs[1..]);
      AbortsTail(users, parses, rs);
      match ResolveRecord(users, rs[0])
      case None => rest
      case Some(m) =>
        if parses(m.timestamp) then [m] + rest
        else assert Throws(users, parses, rs[0]); []
  }

  lemma AbortsTail(users: seq<User>, parses: string -> bool, rs: seq<MessageRecord>)
    requires |rs| > 0
    ensures Aborts(users, parses, rs) <==> Throws(users, parses, rs[0]) || Aborts(users, parses, rs[1..])
  {
    if Aborts(users, parses, rs[1..]) {
      var i :| 0 <= i < |rs[1..]| && Throws(users, parses, rs[1..][i]);
      assert rs[1..][i] == rs[i + 1];
    }
    if Aborts(users, parses, rs) && !Throws(users, parses, rs[0]) {
      var i :| 0 <= i < |rs| && Throws(users, parses, rs[i]);
      assert rs[i] == rs[1..][i - 1];
    }
  }

  /** When record `k` is the first that throws, the result is what the
      records before it give, and those do not throw. */
  lemma {:induction false} ResolveStopsAtFirstThrow(users: seq<User>, parses: string -> bool, rs: seq<MessageRecord>, k: nat)
    requires k < |rs| && Throws(users, parses, rs[k])
    requires forall j | 0 <= j < k :: !Throws(users, parses, rs[j])
    ensures !Aborts(users, parses, rs[..k])
    ensures Resolve(users, parses, rs) == Resolve(users, parses, rs[..k])
    decreases k
  {
    if k == 0 {
      assert rs[..k] == [];
      assert Resolve(users, parses, rs) == [];
    } else {
      var tail := rs[1..];
      forall j | 0 <= j < k - 1 ensures !Throws(users, parses, tail[j]) {
        assert tail[j] == rs[j + 1];
      }
      assert tail[k - 1] == rs[k];
      ResolveStopsAtFirstThrow(users, parses, tail, k - 1);
      var prefix := rs[..k];
      assert prefix[1..] == tail[..k - 1];
      assert prefix[0] == rs[0];
      assert !Throws(users, parses, rs[0]);
      AbortsTail(users, parses, prefix);
      assert Resolve(users, parses, tail) == Resolve(users, parses, prefix[1..]);
    }
  }

  /** Adding one record at the end of a document that does not throw adds its
      message at the end, or nothing when a name is unknown or its
      timestamp does not parse. */
  lemma {:induction false} ResolveAppend(users: seq<User>, parses: string -> bool, rs: seq<MessageRecord>, rec: MessageRecord)
    requires !Aborts(users, parses, rs)
    ensures Resolve(users, parses, rs + [rec]) ==
      Resolve(users, parses, rs) +
      (if Kept(users)(rec) && parses(rec.timestamp) then [ResolveRecord(users, rec).value] else [])
    decreases |rs|
  {
    if |rs| == 0 {
      assert rs + [rec] == [rec];
    } else {
      assert (rs + [rec])[1..] == rs[1..] + [rec];
      AbortsTail(users, parses, rs);
      ResolveAppend(users, parses, rs[1..], rec);
    }
  }

  /** `getMessagesFromXML`: the users are read from the user file first; an
      absent or unreadable message file gives no messages. Every message's
      sender and receiver is one of those users. */
  function LoadMessages(codec: Base64, userFile: UserFile, parses: string -> bool, file: MessageFile): (r: seq<Message>)
    ensures !file.MessageDocument? ==> r == []
    ensures file.MessageDocument? ==> r == Resolve(LoadUsers(codec, userFile), parses, file.records)
    ensures forall k | 0 <= k < |r| ::
      r[k].sender in LoadUsers(codec, userFile) && r[k].receiver in LoadUsers(codec, userFile)
  {
    var users := LoadUsers(codec, userFile);
    match file
    case MessageDocument(rs) =>
      ResolvedFromUsers(users, parses, rs);
      Resolve(users, parses, rs)
    case _ => []
  }

  lemma {:induction false} ResolvedFromUsers(users: seq<User>, parses: string -> bool, rs: seq<MessageRecord>)
    ensures forall k | 0 <= k < |Resolve(users, parses, rs)| ::
      Resolve(users, parses, rs)[k].sender in users && Resolve(users, parses, rs)[k].receiver in users
    decreases |rs|
  {
    if |rs| > 0 {
      var r := Resolve(users, parses, rs);
      var rest := Resolve(users, parses, rs[1..]);
      ResolvedFromUsers(users, parses, rs[1..]);
      match ResolveRecord(users, rs[0])
      case None =>
        assert r == rest;
      case Some(m) =>
        if parses(m.timestamp) {
          assert r == [m] + rest;
          forall k | 1 <= k < |r| ensures r[k].sender in users && r[k].receiver in users {
            assert r[k] == rest[k - 1];
          }
        }
    }
  }

  /** The record `addMessageToXML` writes for a message. */
  function RecordOf(m: Message): (rec: MessageRecord)
  {
    MessageRecord(m.sender.name, m.receiver.name, m.content, m.timestamp)
  }

  /** `addMessageToXML`: parse the file, or start an empty `messages` root
      when there is none, append one record, rewrite the file. An unreadable
      file makes the parse throw and nothing is written. */
  function AppendMessage(file: MessageFile, m: Message): (r: Result<MessageFile, string>)
    ensures r.Success? <==> !file.UnreadableMessageFile?
    ensures file.NoMessageFile? ==> r == Success(MessageDocument([RecordOf(m)]))
    ensures file.MessageDocument? ==> r == Success(MessageDocument(file.records + [RecordOf(m)]))
  {
    match file
    case NoMessageFile => Success(MessageDocument([RecordOf(m)]))
    case MessageDocument(rs) => Success(MessageDocument(rs + [RecordOf(m)]))
    case UnreadableMessageFile => Failure("the message file could not be parsed")
  }

  /** Appending a message then reading the file back yields the earlier
      messages followed by exactly one message with the same sender name,
      receiver name, content and timestamp, when both names are users and the
      timestamp parses; with an unknown name nothing is added. */
  lemma AppendThenLoad(codec: Base64, userFile: UserFile, parses: string -> bool, file: MessageFile, m: Message)
    requires file.NoMessageFile? || (file.MessageDocument? && !Aborts(LoadUsers(codec, userFile), parses, file.records))
    requires parses(m.timestamp)
    ensures AppendMessage(file, m).Success?
    ensures var users := LoadUsers(codec, userFile);
      var before := LoadMessages(codec, userFile, parses, file);
      var after := LoadMessages(codec, userFile, parses, AppendMessage(file, m).value);
      if Kept(users)(RecordOf(m)) then
        |after| == |before| + 1 && after[..|before|] == before &&
        after[|before|].sender.name == m.sender.name && after[|before|].receiver.name == m.receiver.name &&
        after[|before|].content == m.content && after[|before|].timestamp == m.timestamp
      else after == before
  {
    var users := LoadUsers(codec, userFile);
    var rs := if file.MessageDocument? then file.records else [];
    assert AppendMessage(file, m).value == MessageDocument(rs + [RecordOf(m)]);
    ResolveAppend(users, parses, rs, RecordOf(m));
  }
}
