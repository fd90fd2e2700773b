/** `model.Message`: an immutable (sender, receiver, content, timestamp)
    record. The timestamp is kept as its ISO-8601 text. */
module Messages {
  import opened Wrappers
  import opened Users

  /** There are no setters: a value of this type never changes, and the
      getters are the field selectors. */
  datatype Message = Message(sender: User, receiver: User, content: string, timestamp: string)

  /** `new Message(sender, receiver, content, timestamp)`. */
  function NewMessage(sender: User, receiver: User, content: string, timestamp: string): (m: Message)
    ensures m.sender == sender && m.receiver == receiver
    ensures m.content == content && m.timestamp == timestamp
  {
    Message(sender, receiver, content, timestamp)
  }

  /** `message.getSender().equals(u)`: decided by names, as for users. */
  predicate SentBy(m: Message, u: Option<User>) {
    Equals(m.sender, u)
  }

  /** `message.getReceiver().equals(u)`. */
  predicate SentTo(m: Message, u: Option<User>) {
    Equals(m.receiver, u)
  }

  /** Which message a user sent or received depends on the names alone. */
  lemma EndpointsByName(m: Message, m': Message, u: User)
    requires m.sender.name == m'.sender.name && m.receiver.name == m'.receiver.name
    ensures SentBy(m, Some(u)) == SentBy(m', Some(u))
    ensures SentTo(m, Some(u)) == SentTo(m', Some(u))
  {
  }
}
