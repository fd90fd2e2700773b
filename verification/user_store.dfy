/** The user half of `utils.XmlReader`: `UsersData.xml` read into users and
    written back, at the level of its records. */
module UserStore {
  import opened Wrappers
  import opened Bytes
  import opened Users

  /** A `<contact>` element: name, digest text and Base64 image text. */
  datatype ContactRecord = ContactRecord(username: string, password: string, image: string)

  /** A `<user>` element with its nested `<contacts>` block. */
  datatype UserRecord = UserRecord(username: string, password: string, image: string, contacts: seq<ContactRecord>)

  /** The user file as the DOM parser finds it: absent, not parseable as XML,
      or a document holding user records in document order. */
  datatype UserFile = NoUserFile | UnreadableUserFile | UserDocument(records: seq<UserRecord>)

  /** `Base64.getEncoder().encodeToString` and `Base64.getDecoder().decode`;
      `decode` is `None` where the Java decoder throws. */
  datatype Base64 = Base64(encode: Bytes -> string, decode: string -> Option<Bytes>)

  /** Decoding undoes encoding, as the Base64 alphabet guarantees. */
  ghost predicate Inverse(codec: Base64) {
    forall b: Bytes :: codec.decode(codec.encode(b)) == Some(b)
  }

  // ---------------------------------------------------------------- reading

  /** A contact as `getUsersFromXML` builds it: `new User(name, password,
      image, null)`, so its own contact list is empty. */
  function ParseContacts(codec: Base64, cs: seq<ContactRecord>): (r: Option<seq<User>>)
    ensures r.Some? <==> forall j | 0 <= j < |cs| :: codec.decode(cs[j].image).Some?
    ensures r.Some? ==> |r.value| == |cs|
    ensures r.Some? ==> forall j | 0 <= j < |cs| ::
      r.value[j] == User(cs[j].username, cs[j].password, codec.decode(cs[j].image), [])
    decreases |cs|
  {
    if |cs| == 0 then Some([])
    else
      match (codec.decode(cs[0].image), ParseContacts(codec, cs[1..]))
      case (Some(img), Some(rest)) =>
        Some([User(cs[0].username, cs[0].password, Some(img), [])] + rest)
      case _ => None
  }

  /** One `<user>` element, or `None` where the loop body would throw. */
  function ParseUser(codec: Base64, rec: UserRecord): (r: Option<User>)
  {
    match (codec.decode(rec.image), ParseContacts(codec, rec.contacts))
    case (Some(img), Some(contacts)) => Some(User(rec.username, rec.password, Some(img), contacts))
    case _ => None
  }

  /** The loop of `getUsersFromXML`: records are parsed in order and the first
      one that throws ends the loop, keeping the users built so far. */
  function ParseUsers(codec: Base64, rs: seq<UserRecord>): (r: seq<User>)
    ensures |r| <= |rs|
    ensures forall i | 0 <= i < |r| :: ParseUser(codec, rs[i]) == Some(r[i])
    ensures |r| < |rs| ==> ParseUser(codec, rs[|r|]).None?
    decreases |rs|
  {
    if |rs| == 0 then []
    else
      match ParseUser(codec, rs[0])
      case None => []
      case Some(u) => [u] + ParseUsers(codec, rs[1..])
  }

  /** `getUsersFromXML`: an absent or unreadable file gives no users. Every
      user read has an image, and its contacts are leaves with images. */
  function LoadUsers(codec: Base64, file: UserFile): (r: seq<User>)
    ensures !file.UserDocument? ==> r == []
    ensures file.UserDocument? ==> |r| <= |file.records|
    ensures file.UserDocument? ==> r == ParseUsers(codec, file.records)
    ensures forall i | 0 <= i < |r| :: r[i].profileImage.Some?
    ensures forall i, j | 0 <= i < |r| && 0 <= j < |r[i].contacts| ::
      r[i].contacts[j].contacts == [] && r[i].contacts[j].profileImage.Some?
  {
    match file
    case UserDocument(rs) =>
      var r := ParseUsers(codec, rs);
      assert forall i | 0 <= i < |r| :: ParseUser(codec, rs[i]) == Some(r[i]);
      r
    case _ => []
  }

  // ---------------------------------------------------------------- writing

  /** Every image `saveUsersToXML` will encode is present; a null one makes
      `encodeToString` throw. */
  predicate ImagesPresent(users: seq<User>) {
    forall i | 0 <= i < |users| ::
      users[i].profileImage.Some? &&
      forall j | 0 <= j < |users[i].contacts| :: users[i].contacts[j].profileImage.Some?
  }

  /** The `<contact>` elements of one user: name, digest and image only. */
  function SerializeContacts(codec: Base64, cs: seq<User>): (r: Option<seq<ContactRecord>>)
    ensures r.Some? <==> forall j | 0 <= j < |cs| :: cs[j].profileImage.Some?
    ensures r.Some? ==> |r.value| == |cs|
    ensures r.Some? ==> forall j | 0 <= j < |cs| ::
      r.value[j] == ContactRecord(cs[j].name, cs[j].password, codec.encode(cs[j].profileImage.value))
    decreases |cs|
  {
    if |cs| == 0 then Some([])
    else
      match (cs[0].profileImage, SerializeContacts(codec, cs[1..]))
      case (Some(img), Some(rest)) =>
        Some([ContactRecord(cs[0].name, cs[0].password, codec.encode(img))] + rest)
      case _ => None
  }

  function SerializeUser(codec: Base64, u: User): (r: Option<UserRecord>)
  {
    match (u.profileImage, SerializeContacts(codec, u.contacts))
    case (Some(img), Some(contacts)) => Some(UserRecord(u.name, u.password, codec.encode(img), contacts))
    case _ => None
  }

  /** The document `saveUsersToXML` builds, or `None` when building it throws. */
  function Serialize(codec: Base64, users: seq<User>): (r: Option<seq<UserRecord>>)
    ensures r.Some? <==> ImagesPresent(users)
    ensures r.Some? ==> |r.value| == |users|
    ensures r.Some? ==> forall i | 0 <= i < |users| :: SerializeUser(codec, users[i]) == Some(r.value[i])
    decreases |users|
  {
    if |users| == 0 then Some([])
    else
      match (SerializeUser(codec, users[0]), Serialize(codec, users[1..]))
      case (Some(rec), Some(rest)) =>
        var r := [rec] + rest;
        assert forall i | 1 <= i < |users| :: users[i] == users[1..][i - 1];
        Some(r)
      case _ => None
  }

  /** `saveUsersToXML`: the whole file is replaced by the users' records; if
      building the document throws, the error is swallowed and the file is
      left as it was. */
  function SaveUsers(codec: Base64, users: seq<User>, file: UserFile): (r: UserFile)
    ensures ImagesPresent(users) ==> r.UserDocument? && |r.records| == |users|
    ensures ImagesPresent(users) ==> forall i | 0 <= i < |users| ::
      r.records[i].username == users[i].name && r.records[i].password == users[i].password &&
      r.records[i].image == codec.encode(users[i].profileImage.value) &&
      |r.records[i].contacts| == |users[i].contacts|
    ensures !ImagesPresent(users) ==> r == file
  {
    match Serialize(codec, users)
    case Some(rs) => UserDocument(rs)
    case None => file
  }

  // ------------------------------------------------------------- round trip

  /** A contact as it comes back from the file: its own contacts are gone. */
  function Leaf(c: User): User {
    c.(contacts := [])
  }

  /** What a user looks like after being written and read back. */
  function Snapshot(u: User): User {
    u.(contacts := seq(|u.contacts|, j requires 0 <= j < |u.contacts| => Leaf(u.contacts[j])))
  }

  lemma UserRoundTrip(codec: Base64, u: User)
    requires Inverse(codec)
    requires ImagesPresent([u])
    ensures SerializeUser(codec, u).Some?
    ensures ParseUser(codec, SerializeUser(codec, u).value) == Some(Snapshot(u))
  {
    assert u == [u][0];
    var rec := SerializeUser(codec, u).value;
    var cs := ParseContacts(codec, rec.contacts);
    assert codec.decode(codec.encode(u.profileImage.value)) == u.profileImage;
    forall j | 0 <= j < |rec.contacts|
      ensures codec.decode(rec.contacts[j].image) == u.contacts[j].profileImage
    {
      assert codec.decode(codec.encode(u.contacts[j].profileImage.value)) == u.contacts[j].profileImage;
    }
    assert cs.value == Snapshot(u).contacts;
  }

  /** Writing users and reading them back keeps, in order, every user's name,
      digest and image and every contact's name, digest and image, but not
      the contacts' own contacts. */
  lemma {:induction false} SaveThenLoad(codec: Base64, users: seq<User>, file: UserFile)
    requires Inverse(codec)
    requires ImagesPresent(users)
    ensures var r := LoadUsers(codec, SaveUsers(codec, users, file));
      |r| == |users| && forall i | 0 <= i < |users| :: r[i] == Snapshot(users[i])
  {
    var rs := Serialize(codec, users).value;
    ParsesAll(codec, users, rs);
  }

  lemma {:induction false} ParsesAll(codec: Base64, users: seq<User>, rs: seq<UserRecord>)
    requires Inverse(codec)
    requires ImagesPresent(users)
    requires Serialize(codec, users) == Some(rs)
    ensures |ParseUsers(codec, rs)| == |users|
    ensures forall i | 0 <= i < |users| :: ParseUsers(codec, rs)[i] == Snapshot(users[i])
    decreases |users|
  {
    if |users| > 0 {
      assert ImagesPresent([users[0]]);
      UserRoundTrip(codec, users[0]);
      assert ParseUser(codec, rs[0]) == Some(Snapshot(users[0]));
      assert ImagesPresent(users[1..]);
      assert Serialize(codec, users[1..]) == Some(rs[1..]);
      ParsesAll(codec, users[1..], rs[1..]);
      var r := ParseUsers(codec, rs);
      assert r == [Snapshot(users[0])] + ParseUsers(codec, rs[1..]);
      forall i | 1 <= i < |users|
        ensures r[i] == Snapshot(users[i])
      {
        assert users[i] == users[1..][i - 1];
      }
    }
  }

  /** A contact that has contacts of its own does not survive the round trip. */
  lemma NestedContactsLost(codec: Base64, users: seq<User>, file: UserFile, i: nat, j: nat)
    requires Inverse(codec)
    requires ImagesPresent(users)
    requires i < |users| && j < |users[i].contacts| && users[i].contacts[j].contacts != []
    ensures LoadUsers(codec, SaveUsers(codec, users, file)) != users
  {
    SaveThenLoad(codec, users, file);
    var r := LoadUsers(codec, SaveUsers(codec, users, file));
    assert r[i].contacts[j].contacts == [];
  }

  // ---------------------------------------------------------------- lookup

  /** `findUserByName`: the first user with exactly this name, or null. */
  function FindUserByName(users: seq<User>, name: string): (r: Option<User>)
    ensures r.Some? ==> r.value.name == name
    ensures r.Some? ==>
      exists i | 0 <= i < |users| :: users[i] == r.value && forall j | 0 <= j < i :: users[j].name != name
    ensures r.None? ==> forall i | 0 <= i < |users| :: users[i].name != name
    decreases |users|
  {
    if |users| == 0 then None
    else if users[0].name == name then Some(users[0])
    else
      var r := FindUserByName(users[1..], name);
      if r.Some? then
        ghost var k :| 0 <= k < |users[1..]| && users[1..][k] == r.value &&
          forall j | 0 <= j < k :: users[1..][j].name != name;
        assert users[k + 1] == r.value;
        r
      else r
  }

  /** The lookup answers with the user at the first index holding the name. */
  lemma {:induction false} FindUserByNameAt(users: seq<User>, name: string, k: nat)
    requires k < |users| && users[k].name == name
    requires forall j | 0 <= j < k :: users[j].name != name
    ensures FindUserByName(users, name) == Some(users[k])
    decreases k
  {
    if k > 0 {
      FindUserByNameAt(users[1..], name, k - 1);
    }
  }
}
