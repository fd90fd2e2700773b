/** `view.InicieSessionController`: the login form. It reads the user file
    directly and compares digests computed with its own copy of the hex
    loop, over the platform-default bytes of the password. */
module Login {
  import opened Wrappers
  import opened Bytes
  import opened Users
  import opened Security
  import Hex
  import opened UserStore
  import opened Sessions

  datatype LoginOutcome =
    | FieldsMissing     // "Por favor, complete todos los campos."
    | LoggedIn          // the session now holds the user
    | WrongCredentials  // "Nombre de usuario o contraseña incorrectos."
    | LoginError        // an exception reached `inicieUser`

  /** The controller's `hashPassword`: SHA3-256 of `password.getBytes()`. */
  function ControllerHash(p: Platform, password: string): (r: string)
    ensures |r| == DigestTextLength
  {
    Hex.BytesToHex(p.sha3(p.defaultEncode(password)))
  }

  /** When the platform charset encodes the password as UTF-8 does, the
      controller and `Security.hashPassword` agree. */
  lemma ControllerHashAgreesWithSecurity(p: Platform, password: string)
    requires p.defaultEncode(password) == p.utf8(password)
    ensures ControllerHash(p, password) == HashPassword(p, password)
  {
  }

  /** The `for (byte b : hash)` loop of the controller's `hashPassword`: the
      same text as `Security.bytesToHex`. */
  method HexLoop(hash: Bytes) returns (s: string)
    ensures s == Hex.BytesToHex(hash)
  {
    s := "";
    for i := 0 to |hash|
      invariant s == Hex.BytesToHex(hash[..i])
    {
      var hex := Hex.ToHexString(Unsigned(hash[i]));
      ghost var before := s;
      if |hex| == 1 {
        s := s + "0";
      }
      s := s + hex;
      assert s == before + Hex.ByteHex(hash[i]) by {
        Hex.ByteHexPadding(hash[i]);
      }
      HexPrefixStep(hash, i);
    }
    assert hash[..|hash|] == hash;
  }

  /** The controller's `hashPassword` as a whole: digest, then the loop. */
  method HashPasswordMethod(p: Platform, password: string) returns (h: string)
    ensures h == ControllerHash(p, password)
  {
    h := HexLoop(p.sha3(p.defaultEncode(password)));
  }

  lemma HexPrefixStep(hash: Bytes, i: nat)
    requires i < |hash|
    ensures Hex.BytesToHex(hash[..i + 1]) == Hex.BytesToHex(hash[..i]) + Hex.ByteHex(hash[i])
  {
    var done, next := hash[..i], hash[i];
    assert hash[..i + 1] == done + [next];
    Hex.BytesToHexAppend(done, next);
  }

  /** `checkPassword`: exact, case-sensitive equality of digest texts. It
      holds exactly when the stored text reads back as the password's digest,
      so upper-case or malformed text never matches. */
  function CheckPassword(p: Platform, password: string, storedHash: string): (r: bool)
    ensures r <==> Hex.HexDecode(storedHash) == Some(p.sha3(p.defaultEncode(password)))
  {
    Hex.EncodesIffDecodes(storedHash, p.sha3(p.defaultEncode(password)));
    ControllerHash(p, password) == storedHash
  }

  /** A stored text with anything but lower-case hex digits never matches. */
  lemma CheckPasswordCaseSensitive(p: Platform, password: string, storedHash: string, k: nat)
    requires k < |storedHash| && !Hex.IsHexDigit(storedHash[k])
    ensures !CheckPassword(p, password, storedHash)
  {
  }

  /** A record that lets this user in with this password. */
  predicate Admits(p: Platform, rec: UserRecord, username: string, password: string) {
    rec.username == username && CheckPassword(p, password, rec.password)
  }

  /** The scan of `isUserExists` over the user records: the first record
      with exactly this name whose digest matches. */
  method FindLogin(p: Platform, records: seq<UserRecord>, username: string, password: string)
    returns (found: Option<nat>)
    ensures found.Some? ==> found.value < |records| && Admits(p, records[found.value], username, password)
    ensures found.Some? ==> forall j | 0 <= j < found.value :: !Admits(p, records[j], username, password)
    ensures found.None? ==> forall j | 0 <= j < |records| :: !Admits(p, records[j], username, password)
  {
    for i := 0 to |records|
      invariant forall j | 0 <= j < i :: !Admits(p, records[j], username, password)
    {
      if records[i].username == username {
        var hashed := HashPasswordMethod(p, password);
        if hashed == records[i].password {
          return Some(i);
        }
      }
    }
    return None;
  }

  /** `inicieUser`: empty fields are refused before the file is looked at;
      a missing file means wrong credentials, an unreadable one an error.
      On success the session's current user is rebuilt from the typed name
      and the stored digest (`new User(username, hash.getBytes())`), with no
      image and no contacts; otherwise the session is untouched. */
  method Login(p: Platform, s: Session, file: UserFile, username: string, password: string)
    returns (outcome: LoginOutcome, s': Session)
    ensures outcome == FieldsMissing <==> username == "" || password == ""
    ensures outcome == WrongCredentials <==>
      username != "" && password != "" &&
      (file.NoUserFile? ||
       (file.UserDocument? && !exists i | 0 <= i < |file.records| :: Admits(p, file.records[i], username, password)))
    ensures outcome == LoggedIn <==>
      username != "" && password != "" && file.UserDocument? &&
      exists i | 0 <= i < |file.records| :: Admits(p, file.records[i], username, password)
    ensures outcome == LoginError <==> username != "" && password != "" && file.UnreadableUserFile?
    ensures outcome != LoggedIn ==> s' == s
    ensures outcome == LoggedIn ==>
      s'.selected == s.selected && s'.current.Some? &&
      s'.current.value.name == username &&
      s'.current.value.password == p.defaultDecode(p.defaultEncode(ControllerHash(p, password))) &&
      s'.current.value.profileImage.None? && s'.current.value.contacts == []
  {
    if username == "" || password == "" {
      return FieldsMissing, s;
    }
    match file {
      case NoUserFile =>
        return WrongCredentials, s;
      case UnreadableUserFile =>
        return LoginError, s;
      case UserDocument(records) =>
        var found := FindLogin(p, records, username, password);
        match found {
          case None =>
            return WrongCredentials, s;
          case Some(i) =>
            var stored := records[i].password;
            var user := NewUserFromBytes(p.defaultDecode, username, p.defaultEncode(stored));
            return LoggedIn, s.(current := Some(user));
        }
    }
  }
}
