/** `view.MainMenuController`: the list of users one may add, adding a
    contact, refreshing the contact list, and the mutual-contact gate that
    opens a chat. Each flow re-reads the user file. */
module MainMenu {
  import opened Wrappers
  import opened Users
  import opened Text
  import opened Seqs
  import opened UserStore
  import opened Sessions

  // ------------------------------------------------------------ ListUsers

  /** A stored user stays in the "add contact" table: it is not the current
      user and no contact of the current user has its exact name. */
  predicate Listed(current: Option<User>, u: User) {
    match current
    case None => true
    case Some(c) =>
      u.name != c.name && !exists k | 0 <= k < |c.contacts| :: c.contacts[k].name == u.name
  }

  function ListedFor(current: Option<User>): User -> bool {
    (u: User) => Listed(current, u)
  }

  /** `ListUsers`: the stored users minus the current user and their
      contacts, by exact name, in stored order. */
  function ListUsers(codec: Base64, file: UserFile, current: Option<User>): (r: seq<User>)
    ensures current.None? ==> r == LoadUsers(codec, file)
    ensures forall i | 0 <= i < |r| :: r[i] in LoadUsers(codec, file)
    ensures current.Some? ==> forall i | 0 <= i < |r| ::
      r[i].name != current.value.name && forall k | 0 <= k < |current.value.contacts| ::
        current.value.contacts[k].name != r[i].name
    ensures forall i | 0 <= i < |LoadUsers(codec, file)| ::
      Listed(current, LoadUsers(codec, file)[i]) ==> LoadUsers(codec, file)[i] in r
    ensures IsSubsequence(r, LoadUsers(codec, file))
    ensures multiset(r) <= multiset(LoadUsers(codec, file))
    ensures forall u | u in LoadUsers(codec, file) ::
      multiset(r)[u] == if Listed(current, u) then multiset(LoadUsers(codec, file))[u] else 0
  {
    var stored := LoadUsers(codec, file);
    FilterCounts(stored, ListedFor(current));
    if current.None? then FilterKeepsAll(stored, ListedFor(current)); Filter(stored, ListedFor(current))
    else Filter(stored, ListedFor(current))
  }

  // ------------------------------------------------ confirmAndAddContact

  /** The `anyMatch` of the duplicate check: a contact whose name equals the
      given one ignoring case. */
  predicate HasContactIgnoringCase(u: User, name: string) {
    exists k | 0 <= k < |u.contacts| :: EqualsIgnoreCase(u.contacts[k].name, name)
  }

  function NamedIgnoringCase(name: string): User -> bool {
    (u: User) => EqualsIgnoreCase(u.name, name)
  }

  /** The stored record after the update: the contact is appended unless an
      entry with its name is already there. */
  function WithContact(u: User, contact: User): (r: User)
    ensures r.name == u.name && r.password == u.password && r.profileImage == u.profileImage
    ensures ContainsUser(r.contacts, contact)
    ensures ContainsUser(u.contacts, contact) ==> r == u
    ensures !ContainsUser(u.contacts, contact) ==> r.contacts == u.contacts + [contact]
  {
    if ContainsUser(u.contacts, contact) then u
    else
      var r := u.(contacts := u.contacts + [contact]);
      assert r.contacts[|u.contacts|] == contact;
      r
  }

  /** The update loop of `confirmAndAddContact`: only the first user whose
      name matches the current name ignoring case is updated. */
  function AddToFirstMatch(users: seq<User>, currentName: string, contact: User): (r: seq<User>)
    ensures |r| == |users|
    ensures forall i | 0 <= i < |r| :: r[i].name == users[i].name
    ensures FirstIndex(users, NamedIgnoringCase(currentName)).None? ==> r == users
    ensures FirstIndex(users, NamedIgnoringCase(currentName)).Some? ==>
      var k := FirstIndex(users, NamedIgnoringCase(currentName)).value;
      r[k] == WithContact(users[k], contact) &&
      forall j | 0 <= j < |users| && j != k :: r[j] == users[j]
    decreases |users|
  {
    if |users| == 0 then []
    else if EqualsIgnoreCase(users[0].name, currentName) then
      [WithContact(users[0], contact)] + users[1..]
    else
      var rest := AddToFirstMatch(users[1..], currentName, contact);
      assert forall j | 1 <= j < |users| :: users[j] == users[1..][j - 1];
      [users[0]] + rest
  }

  /** Adding the same contact to the same user twice changes nothing the
      second time: the store never gains a second copy. */
  lemma {:induction false} AddToFirstMatchIdempotent(users: seq<User>, currentName: string, contact: User)
    ensures AddToFirstMatch(AddToFirstMatch(users, currentName, contact), currentName, contact) ==
      AddToFirstMatch(users, currentName, contact)
    decreases |users|
  {
    if |users| > 0 && !EqualsIgnoreCase(users[0].name, currentName) {
      AddToFirstMatchIdempotent(users[1..], currentName, contact);
      var once := AddToFirstMatch(users, currentName, contact);
      assert once[1..] == AddToFirstMatch(users[1..], currentName, contact);
    }
  }

  /** `loadContactsForCurrentUser`: the current user takes the contacts of
      the first stored user with exactly the same name; nothing changes when
      there is no current user or no such record. */
  function LoadContactsForCurrentUser(codec: Base64, file: UserFile, s: Session): (r: Session)
    ensures r.selected == s.selected
    ensures s.current.None? ==> r == s
    ensures s.current.Some? ==> r.current.Some?
    ensures s.current.Some? ==> r.current.value == s.current.value.(contacts := r.current.value.contacts)
    ensures s.current.Some? && FindUserByName(LoadUsers(codec, file), s.current.value.name).None? ==> r == s
    ensures s.current.Some? ==> forall i | 0 <= i < |LoadUsers(codec, file)| ::
      LoadUsers(codec, file)[i].name == s.current.value.name &&
      (forall j | 0 <= j < i :: LoadUsers(codec, file)[j].name != s.current.value.name) ==>
        r.current.value.contacts == LoadUsers(codec, file)[i].contacts
  {
    match s.current
    case None => s
    case Some(cur) =>
      match FindUserByName(LoadUsers(codec, file), cur.name)
      case None => s
      case Some(u) => s.(current := Some(SetContacts(cur, Some(u.contacts))))
  }

  datatype AddOutcome =
    | NothingSelected  // "Por favor selecciona un usuario ..."
    | NoCurrentUser    // "No se encontró al usuario actual en la sesión."
    | AlreadyContact   // "El usuario ya está en tu lista de contactos ..."
    | Cancelled        // the confirmation dialog was not accepted
    | ContactAdded     // "Contacto agregado exitosamente."

  datatype AddResult = AddResult(outcome: AddOutcome, session: Session, file: UserFile)

  /** `confirmAndAddContact`. Refusals change nothing. On confirmation the
      session user gains the contact in memory, the file is re-read, the
      first case-insensitive name match gets the contact unless it already
      lists it, the users are written back, and the session user's contacts
      are refreshed from the exact-name record, first of the updated list,
      then of the file again. */
  function ConfirmAndAddContact(codec: Base64, s: Session, selected: Option<User>, confirmed: bool, file: UserFile): (r: AddResult)
    ensures r.outcome == NothingSelected <==> selected.None?
    ensures r.outcome == NoCurrentUser <==> selected.Some? && s.current.None?
    ensures r.outcome == AlreadyContact <==>
      selected.Some? && s.current.Some? && HasContactIgnoringCase(s.current.value, selected.value.name)
    ensures r.outcome == Cancelled <==>
      selected.Some? && s.current.Some? && !HasContactIgnoringCase(s.current.value, selected.value.name) && !confirmed
    ensures r.outcome == ContactAdded <==>
      selected.Some? && s.current.Some? && !HasContactIgnoringCase(s.current.value, selected.value.name) && confirmed
    ensures r.outcome != ContactAdded ==> r.session == s && r.file == file
    ensures r.outcome == ContactAdded ==>
      r.file == SaveUsers(codec, AddToFirstMatch(LoadUsers(codec, file), s.current.value.name, selected.value), file)
    ensures r.outcome == ContactAdded ==> r.session.selected == s.selected && r.session.current.Some?
    ensures r.outcome == ContactAdded ==>
      r.session.current.value == s.current.value.(contacts := r.session.current.value.contacts)
    ensures r.outcome == ContactAdded && FindUserByName(LoadUsers(codec, r.file), s.current.value.name).Some? ==>
      r.session.current.value.contacts == FindUserByName(LoadUsers(codec, r.file), s.current.value.name).value.contacts
    ensures r.outcome == ContactAdded && FindUserByName(LoadUsers(codec, r.file), s.current.value.name).None? &&
            FindUserByName(AddToFirstMatch(LoadUsers(codec, file), s.current.value.name, selected.value), s.current.value.name).None? ==>
      r.session.current.value.contacts == s.current.value.contacts + [selected.value]
  {
    match (selected, s.current)
    case (None, _) => AddResult(NothingSelected, s, file)
    case (Some(_), None) => AddResult(NoCurrentUser, s, file)
    case (Some(sel), Some(cur)) =>
      if HasContactIgnoringCase(cur, sel.name) then AddResult(AlreadyContact, s, file)
      else if !confirmed then AddResult(Cancelled, s, file)
      else
        var inMemory := AddContactToList(cur, sel);
        var users := AddToFirstMatch(LoadUsers(codec, file), cur.name, sel);
        var file' := SaveUsers(codec, users, file);
        var refreshed :=
          match FindUserByName(users, cur.name)
          case Some(u) => SetContacts(inMemory, Some(u.contacts))
          case None => inMemory;
        var s' := LoadContactsForCurrentUser(codec, file', s.(current := Some(refreshed)));
        AddResult(ContactAdded, s', file')
  }

  /** The updated store still holds every image the file needs when the
      store came from the file and the new contact has an image. */
  lemma AddKeepsImages(codec: Base64, file: UserFile, currentName: string, contact: User)
    requires contact.profileImage.Some?
    ensures ImagesPresent(AddToFirstMatch(LoadUsers(codec, file), currentName, contact))
  {
    var users := LoadUsers(codec, file);
    var updated := AddToFirstMatch(users, currentName, contact);
    forall i | 0 <= i < |updated|
      ensures updated[i].profileImage.Some?
      ensures forall j | 0 <= j < |updated[i].contacts| :: updated[i].contacts[j].profileImage.Some?
    {
      if updated[i] != users[i] {
        var k := FirstIndex(users, NamedIgnoringCase(currentName)).value;
        assert i == k;
        if !ContainsUser(users[k].contacts, contact) {
          forall j | 0 <= j < |updated[i].contacts|
            ensures updated[i].contacts[j].profileImage.Some?
          {
            if j < |users[k].contacts| {
              assert updated[i].contacts[j] == users[k].contacts[j];
            }
          }
        }
      }
    }
  }

  /** When no other stored user's name differs from the current user's only
      in case, and the new contact has an image (every user picked from the
      table does), a confirmed add sticks: asking again is refused as a
      duplicate, whatever the second confirmation would be. */
  lemma SecondAddRefused(codec: Base64, s: Session, sel: User, file: UserFile, confirmedAgain: bool)
    requires Inverse(codec)
    requires sel.profileImage.Some?
    requires s.current.Some? && !HasContactIgnoringCase(s.current.value, sel.name)
    requires forall j | 0 <= j < |LoadUsers(codec, file)| ::
      EqualsIgnoreCase(LoadUsers(codec, file)[j].name, s.current.value.name) ==>
        LoadUsers(codec, file)[j].name == s.current.value.name
    ensures var r := ConfirmAndAddContact(codec, s, Some(sel), true, file);
      ConfirmAndAddContact(codec, r.session, Some(sel), confirmedAgain, r.file).outcome == AlreadyContact
  {
    var r := ConfirmAndAddContact(codec, s, Some(sel), true, file);
    AddedContactListed(codec, s, sel, file);
    assert EqualsIgnoreCase(sel.name, sel.name);
    assert HasContactIgnoringCase(r.session.current.value, sel.name);
  }

  /** The heart of `SecondAddRefused`: after the add the session user lists
      the contact by name. */
  lemma AddedContactListed(codec: Base64, s: Session, sel: User, file: UserFile)
    requires Inverse(codec)
    requires sel.profileImage.Some?
    requires s.current.Some? && !HasContactIgnoringCase(s.current.value, sel.name)
    requires forall j | 0 <= j < |LoadUsers(codec, file)| ::
      EqualsIgnoreCase(LoadUsers(codec, file)[j].name, s.current.value.name) ==>
        LoadUsers(codec, file)[j].name == s.current.value.name
    ensures ContainsUser(ConfirmAndAddContact(codec, s, Some(sel), true, file).session.current.value.contacts, sel)
  {
    var cur := s.current.value;
    var contacts := ConfirmAndAddContact(codec, s, Some(sel), true, file).session.current.value.contacts;
    StoredRecordListsContact(codec, cur.name, sel, file);
    if contacts == cur.contacts + [sel] {
      assert contacts[|cur.contacts|] == sel;
    }
  }

  /** After the update is saved and read back, the record the refresh finds
      lists the contact; and when the refresh finds none, the update had no
      exact-name record either. */
  lemma StoredRecordListsContact(codec: Base64, name: string, sel: User, file: UserFile)
    requires Inverse(codec)
    requires sel.profileImage.Some?
    requires forall j | 0 <= j < |LoadUsers(codec, file)| ::
      EqualsIgnoreCase(LoadUsers(codec, file)[j].name, name) ==> LoadUsers(codec, file)[j].name == name
    ensures var updated := AddToFirstMatch(LoadUsers(codec, file), name, sel);
      var found := FindUserByName(LoadUsers(codec, SaveUsers(codec, updated, file)), name);
      (found.Some? ==> ContainsUser(found.value.contacts, sel)) &&
      (found.None? ==> FindUserByName(updated, name).None?)
  {
    var users := LoadUsers(codec, file);
    var updated := AddToFirstMatch(users, name, sel);
    AddKeepsImages(codec, file, name, sel);
    SaveThenLoad(codec, updated, file);
    SnapshotListsContact(users, LoadUsers(codec, SaveUsers(codec, updated, file)), name, sel);
  }

  /** `StoredRecordListsContact` over the lists alone: `reloaded` is what
      reading back the updated users gives. */
  lemma SnapshotListsContact(users: seq<User>, reloaded: seq<User>, name: string, sel: User)
    requires |reloaded| == |users|
    requires forall i | 0 <= i < |users| :: reloaded[i] == Snapshot(AddToFirstMatch(users, name, sel)[i])
    requires forall j | 0 <= j < |users| :: EqualsIgnoreCase(users[j].name, name) ==> users[j].name == name
    ensures var found := FindUserByName(reloaded, name);
      (found.Some? ==> ContainsUser(found.value.contacts, sel)) &&
      (found.None? ==> FindUserByName(AddToFirstMatch(users, name, sel), name).None?)
  {
    var updated := AddToFirstMatch(users, name, sel);
    var fi := FirstIndex(users, NamedIgnoringCase(name));
    if fi.None? {
      forall i | 0 <= i < |reloaded| ensures reloaded[i].name != name {
        assert !NamedIgnoringCase(name)(users[i]);
      }
    } else {
      var k := fi.value;
      assert users[k].name == name;
      assert reloaded[k] == Snapshot(updated[k]);
      FindUserByNameAt(reloaded, name, k);
      var m :| 0 <= m < |updated[k].contacts| && updated[k].contacts[m].name == sel.name;
      assert reloaded[k].contacts[m] == Leaf(updated[k].contacts[m]);
    }
  }

  /** The update and the refresh disagree on which record is the current
      user's: when a user whose name differs only in case is stored first,
      that user's record gains the contact and every record carrying the
      current user's exact name is written back untouched. */
  lemma CaseVariantGetsTheContact(users: seq<User>, currentName: string, contact: User, k: nat)
    requires k < |users| && users[k].name != currentName
    requires EqualsIgnoreCase(users[k].name, currentName)
    requires forall j | 0 <= j < k :: !EqualsIgnoreCase(users[j].name, currentName)
    ensures AddToFirstMatch(users, currentName, contact)[k] == WithContact(users[k], contact)
    ensures forall j | 0 <= j < |users| && users[j].name == currentName ::
      AddToFirstMatch(users, currentName, contact)[j] == users[j]
  {
    assert NamedIgnoringCase(currentName)(users[k]);
    assert FirstIndex(users, NamedIgnoringCase(currentName)) == Some(k);
  }

  // ---------------------------------------------------- chattedWithContact

  /** Both users are stored under these exact names (first match each) and
      each one's contact list holds the other's name. */
  function MutualContacts(users: seq<User>, a: string, b: string): (r: bool)
    ensures r <==>
      FindUserByName(users, a).Some? && FindUserByName(users, b).Some? &&
      (exists k | 0 <= k < |FindUserByName(users, a).value.contacts| ::
         FindUserByName(users, a).value.contacts[k].name == b) &&
      (exists k | 0 <= k < |FindUserByName(users, b).value.contacts| ::
         FindUserByName(users, b).value.contacts[k].name == a)
  {
    match (FindUserByName(users, a), FindUserByName(users, b))
    case (Some(x), Some(y)) =>
      assert x.name == a && y.name == b;
      ContainsUser(x.contacts, y) && ContainsUser(y.contacts, x)
    case _ => false
  }

  /** The gate does not depend on who asks. */
  lemma MutualContactsSymmetric(users: seq<User>, a: string, b: string)
    ensures MutualContacts(users, a, b) == MutualContacts(users, b, a)
  {
  }

  /** A one-directional contact never opens a chat. */
  lemma OneWayContactIsNotMutual(users: seq<User>, a: string, b: string)
    requires FindUserByName(users, b).Some?
    requires forall k | 0 <= k < |FindUserByName(users, b).value.contacts| ::
      FindUserByName(users, b).value.contacts[k].name != a
    ensures !MutualContacts(users, a, b) && !MutualContacts(users, b, a)
  {
  }

  datatype ChatOutcome =
    | ChatOpened         // "Chat iniciado con ..."
    | NotMutual          // "No puedes iniciar un chat con ... porque no es tu contacto."
    | NoContactSelected  // "Por favor selecciona un contacto para chatear."
    | PartyNotStored     // a name is missing from the file: nothing happens

  datatype ChatResult = ChatResult(outcome: ChatOutcome, session: Session)

  /** `chattedWithContact`: both parties are looked up by exact name in the
      freshly read file; the chat opens, selecting the stored copy of the
      contact, only when each lists the other. Otherwise the session is
      unchanged. */
  function ChattedWithContact(codec: Base64, file: UserFile, s: Session, selectedContact: Option<User>): (r: ChatResult)
    ensures r.outcome == NoContactSelected <==> selectedContact.None? || s.current.None?
    ensures r.outcome == PartyNotStored <==>
      selectedContact.Some? && s.current.Some? &&
      (FindUserByName(LoadUsers(codec, file), selectedContact.value.name).None? ||
       FindUserByName(LoadUsers(codec, file), s.current.value.name).None?)
    ensures r.outcome == ChatOpened <==>
      selectedContact.Some? && s.current.Some? &&
      MutualContacts(LoadUsers(codec, file), s.current.value.name, selectedContact.value.name)
    ensures r.outcome == ChatOpened ==> r.session.current == s.current
    ensures r.outcome == ChatOpened ==>
      r.session.selected == FindUserByName(LoadUsers(codec, file), selectedContact.value.name)
    ensures r.outcome != ChatOpened ==> r.session == s
  {
    match (selectedContact, s.current)
    case (Some(sel), Some(cur)) =>
      var users := LoadUsers(codec, file);
      (match (FindUserByName(users, sel.name), FindUserByName(users, cur.name))
       case (Some(stored), Some(me)) =>
         if ContainsUser(me.contacts, stored) && ContainsUser(stored.contacts, me) then
           ChatResult(ChatOpened, s.(selected := Some(stored)))
         else ChatResult(NotMutual, s)
       case _ => ChatResult(PartyNotStored, s))
    case _ => ChatResult(NoContactSelected, s)
  }
}
