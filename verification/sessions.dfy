/** The state `SessionManager` holds for the whole process, passed here as
    a value: the logged-in user and the chat partner chosen from the
    contacts. */
module Sessions {
  import opened Wrappers
  import opened Users

  datatype Session = Session(current: Option<User>, selected: Option<User>)

  const Empty: Session := Session(None, None)
}
