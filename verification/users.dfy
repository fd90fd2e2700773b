/** `model.User`: a name, a password digest text, an optional image and an
    ordered contact list. Identity is the name alone. */
module Users {
  import opened Wrappers
  import opened Bytes

  /** A user value. Contacts are copies, not references, and may repeat.
      `profileImage` is `None` where the Java field is null; the contact list
      is never null (both constructors and `setContacts` replace null by an
      empty list), so `getContacts` is the field itself. */
  datatype User = User(name: string, password: string, profileImage: Option<Bytes>, contacts: seq<User>)

  /** `new User(name, password, profileImage, contacts)`. */
  function NewUser(name: string, password: string, image: Option<Bytes>, contacts: Option<seq<User>>): (u: User)
    ensures u.name == name && u.password == password && u.profileImage == image
    ensures contacts.None? ==> u.contacts == []
    ensures contacts.Some? ==> u.contacts == contacts.value
  {
    User(name, password, image, contacts.GetOr([]))
  }

  /** `new User(name, byte[] password)`: the bytes are read back as text in
      the platform charset; there is no image and no contact. */
  function NewUserFromBytes(decode: Bytes -> string, name: string, password: Bytes): (u: User)
    ensures u.name == name && u.password == decode(password)
    ensures u.profileImage.None? && u.contacts == []
  {
    User(name, decode(password), None, [])
  }

  /** `setContacts`: replaces the list, a null argument meaning empty. */
  function SetContacts(u: User, contacts: Option<seq<User>>): (r: User)
    ensures r.name == u.name && r.password == u.password && r.profileImage == u.profileImage
    ensures contacts.None? ==> r.contacts == []
    ensures contacts.Some? ==> r.contacts == contacts.value
  {
    u.(contacts := contacts.GetOr([]))
  }

  /** `addContactToList`: appends without looking for duplicates. */
  function AddContactToList(u: User, contact: User): (r: User)
    ensures r.name == u.name && r.password == u.password && r.profileImage == u.profileImage
    ensures |r.contacts| == |u.contacts| + 1
    ensures r.contacts[..|u.contacts|] == u.contacts
    ensures r.contacts[|u.contacts|] == contact
  {
    u.(contacts := u.contacts + [contact])
  }

  /** `u.equals(obj)`: the same object, or another `User` with the same name. */
  function Equals(u: User, obj: Option<User>): (r: bool)
    ensures r <==> obj.Some? && obj.value.name == u.name
  {
    match obj
    case None => false
    case Some(o) => o == u || o.name == u.name
  }

  /** Name equality is an equivalence, whatever the other fields hold. */
  lemma EqualsIsEquivalence(a: User, b: User, c: User)
    ensures Equals(a, Some(a))
    ensures Equals(a, Some(b)) <==> Equals(b, Some(a))
    ensures Equals(a, Some(b)) && Equals(b, Some(c)) ==> Equals(a, Some(c))
    ensures Equals(a, Some(b)) <==> Equals(a.(password := b.password, profileImage := b.profileImage, contacts := b.contacts), Some(b))
  {
  }

  /** `list.contains(u)`: some element equals `u`, that is, has its name. */
  function ContainsUser(list: seq<User>, u: User): (r: bool)
    ensures r <==> exists i | 0 <= i < |list| :: list[i].name == u.name
    decreases |list|
  {
    if |list| == 0 then false
    else Equals(u, Some(list[0])) || ContainsUser(list[1..], u)
  }

  const TwoTo32: int := 0x1_0000_0000

  /** Java `int` arithmetic: the value wrapped into 32-bit two's complement. */
  function ToInt32(x: int): (r: int)
    ensures -0x8000_0000 <= r < 0x8000_0000
    ensures (r - x) % TwoTo32 == 0
  {
    var m := x % TwoTo32;
    if m < 0x8000_0000 then m else m - TwoTo32
  }

  /** `String.hashCode`: `h = 31 * h + c` over the characters, in `int`. */
  function StringHashCode(s: string): (r: int)
    decreases |s|
  {
    if |s| == 0 then 0
    else ToInt32(31 * StringHashCode(s[..|s| - 1]) + s[|s| - 1] as int)
  }

  /** `hashCode` = `Objects.hash(name)` = `31 + name.hashCode()` in `int`. */
  function HashCode(u: User): (r: int)
    ensures -0x8000_0000 <= r < 0x8000_0000
  {
    ToInt32(31 + StringHashCode(u.name))
  }

  /** Equal users have equal hash codes. */
  lemma HashCodeConsistentWithEquals(a: User, b: User)
    requires Equals(a, Some(b))
    ensures HashCode(a) == HashCode(b)
  {
  }
}
