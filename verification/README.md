# THEREALCHATTOT chat client: a Dafny model of its core

THEREALCHATTOT is a JavaFX desktop chat. Users and their contact lists live in
an XML user file. Passwords are stored as the lower-case hex text of their
SHA3-256 digest. Messages live in an XML message file and are also appended
to a plain-text transcript. This project models the logic behind that:

- the hex encoding of digests and the two password hashers;
- the login scan;
- the `User` and `Message` records, with `User`'s name-based `equals` and `hashCode`;
- the record-level loading and saving of the user file;
- the loading of the message file and the `findUserByName` lookup;
- the main menu: the "add contact" table, the add-contact flow, the contact
  refresh, and the mutual-contact gate that opens a chat;
- the chat screen: the message display, the send guard and its three writes,
  the transcript line format, and the conversation export.

Everything is pure. Files are values:
- `UserFile` and `MessageFile` are each absent, unreadable, or a document of records;
- the transcript is a string.

The session singleton is an explicit `Session(current, selected)` record that
operations take and return. GUI choices are parameters:
- the selected table row (`Option<User>`);
- the confirmation dialog (`confirmed: bool`);
- the save dialog (`chosen: bool`);
- the typed text (`Option<string>`).

Java `byte` is the signed newtype `Bytes.JByte`, and `0xff & b` is `Bytes.Unsigned`.

Three opaque library functions are fields of records:
- SHA3-256 and the two charsets are fields of `Security.Platform`;
- Base64 is `UserStore.Base64`, whose round trip is assumed only through the
  `Inverse` precondition.

`LocalDateTime.parse` is a `parses: string -> bool` parameter. A timestamp is
its ISO text.

Exceptions are modelled where the code lets them change the outcome:
- `getUsersFromXML` and `getMessagesFromXML` catch outside their loops, so a
  throwing record ends the load with the users or messages built so far.
  For users, the throw is an undecodable image. For messages, it is a
  timestamp that does not parse.
- `saveUsersToXML` throws before writing when any image is null, so the file stays as it was.
- `sendMessage` fails without writing when there is no current user or the message file cannot be parsed.

Behaviours of the code that the lemmas make explicit:

- `confirmAndAddContact` updates the first stored user whose name equals the
  current user's ignoring case. It then refreshes the session from the first
  user with exactly that name. When a case-variant name is stored first, that
  user gains the contact and the current user's own record is written back
  untouched (`MainMenu.CaseVariantGetsTheContact`).
- A contact's own contacts are not written to the file, so they are lost by a
  save and load (`UserStore.NestedContactsLost`).
- The login form hashes `password.getBytes()` in the platform charset, while
  `Security.hashPassword` uses UTF-8. The two agree only when the two encodings
  agree (`Login.ControllerHashAgreesWithSecurity`).
- The live list line after a send reads "A <contact>: …". The same message
  reads "Para <contact>: …" when the list is rebuilt from the file
  (`Chat.SendMessage`, `Chat.SentMessageDisplayedOnReload`).

## Model

Source paths are relative to the repository root.

| member | source | states |
|---|---|---|
| `Bytes.Unsigned` | src/main/java/com/github/Frenadol/utils/Security.java:16 | `0xff & b` is the value in 0..255 congruent to the signed byte modulo 256 |
| `Bytes.FromUnsigned` | src/main/java/com/github/Frenadol/utils/Security.java:16 | every value below 256 is `0xff & b` of some byte, so `Unsigned` is onto 0..255 |
| `Bytes.UnsignedInjective` | src/main/java/com/github/Frenadol/utils/Security.java:16 | two bytes with the same unsigned value are the same byte |
| `Hex.Digit` | src/main/java/com/github/Frenadol/utils/Security.java:16 | each nibble is written as a lower-case hex digit |
| `Hex.DigitValue` | src/main/java/com/github/Frenadol/utils/Security.java:16 | reading a character as a digit succeeds exactly on the lower-case hex digits and inverts `Digit` |
| `Hex.DigitValueOfDigit` | src/main/java/com/github/Frenadol/utils/Security.java:16 | reading back the digit of a nibble gives the nibble |
| `Hex.ToHexString` | src/main/java/com/github/Frenadol/utils/Security.java:16 | `Integer.toHexString` of a non-negative value: at least one digit, all hex, no leading zero, and the digits denote the value |
| `Hex.ToHexStringOfByte` | src/main/java/com/github/Frenadol/utils/Security.java:16-17 | for a value below 256, `toHexString` is one digit below 16 and two digits otherwise |
| `Hex.ByteHex` | src/main/java/com/github/Frenadol/utils/Security.java:16-20 | the text appended for one byte is its high nibble digit followed by its low nibble digit |
| `Hex.ByteHexPadding` | src/main/java/com/github/Frenadol/utils/Security.java:16-20 | that text is what the padding branch builds: a '0' before a one-digit `toHexString` |
| `Hex.BytesToHex` | src/main/java/com/github/Frenadol/utils/Security.java:13-23 | `bytesToHex` gives exactly two lower-case hex digits per byte, and characters 2i and 2i+1 spell byte i |
| `Hex.BytesToHexAppend` | src/main/java/com/github/Frenadol/utils/Security.java:15-21 | one more byte appends exactly that byte's two digits |
| `Hex.HexDecode` | src/main/java/com/github/Frenadol/utils/Security.java:13-23 | the inverse reading: a successful decode has half as many bytes as characters |
| `Hex.DecodePair` | src/main/java/com/github/Frenadol/utils/Security.java:16-20 | decoding a byte's two digits followed by more text yields that byte before the rest's decoding |
| `Hex.DecodeEncode` | src/main/java/com/github/Frenadol/utils/Security.java:13-23 | decoding the hex text of any bytes gives back those bytes |
| `Hex.EncodeDecode` | src/main/java/com/github/Frenadol/utils/Security.java:13-23 | a text that decodes to some bytes is exactly their hex text: lower case, no other spelling |
| `Hex.EncodesIffDecodes` | src/main/java/com/github/Frenadol/utils/Security.java:13-23 | the hex text of some bytes equals a text exactly when that text decodes to those bytes |
| `Hex.EncodeInjective` | src/main/java/com/github/Frenadol/utils/Security.java:13-23 | different byte arrays never share a hex text |
| `Seqs.FilterCounts` | src/main/java/com/github/Frenadol/view/MainMenuController.java:142 | filtering keeps every copy of a kept element and drops every copy of the others |
| `Security.HashPassword` | src/main/java/com/github/Frenadol/utils/Security.java:30-36 | the stored password text has 64 lower-case hex digits and decodes to SHA3-256 of the UTF-8 bytes |
| `Security.HashEqualIffDigestEqual` | src/main/java/com/github/Frenadol/utils/Security.java:30-36 | two passwords hash to the same text exactly when their digests are equal |
| `Text.RegionMatchesIgnoreCase` | src/main/java/com/github/Frenadol/view/MainMenuController.java:192-193 | two equally long prefixes match ignoring case exactly when every position agrees after upper-casing |
| `Text.EqualsIgnoreCase` | src/main/java/com/github/Frenadol/view/MainMenuController.java:192-193 | `equalsIgnoreCase` holds exactly for equal lengths that agree at every position after upper-casing, so equal strings always match |
| `Text.EqualsIgnoreCaseSymmetric` | src/main/java/com/github/Frenadol/view/MainMenuController.java:211 | the case-insensitive comparison does not depend on argument order |
| `Users.NewUser` | src/main/java/com/github/Frenadol/model/User.java:14-19 | the full constructor keeps name, password and image, and a null contact list becomes empty |
| `Users.NewUserFromBytes` | src/main/java/com/github/Frenadol/model/User.java:21-25 | the two-argument constructor decodes the password bytes in the platform charset, with no image and no contacts |
| `Users.SetContacts` | src/main/java/com/github/Frenadol/model/User.java:58-60 | only the contact list changes, and null becomes empty |
| `Users.AddContactToList` | src/main/java/com/github/Frenadol/model/User.java:62-67 | the contact is appended after the old list, with no duplicate check, and nothing else changes |
| `Users.Equals` | src/main/java/com/github/Frenadol/model/User.java:69-75 | two users are equal exactly when the other is non-null and has the same name |
| `Users.EqualsIsEquivalence` | src/main/java/com/github/Frenadol/model/User.java:69-75 | `equals` is reflexive, symmetric and transitive, and ignores password, image and contacts |
| `Users.ContainsUser` | src/main/java/com/github/Frenadol/view/MainMenuController.java:213 | `List.contains` finds a user exactly when some entry has the same name |
| `Users.ToInt32` | src/main/java/com/github/Frenadol/model/User.java:77-80 | Java `int` arithmetic: the result is in the 32-bit range and congruent to the exact value modulo 2^32 |
| `Users.HashCode` | src/main/java/com/github/Frenadol/model/User.java:77-80 | `Objects.hash(name)` is a 32-bit value |
| `Users.HashCodeConsistentWithEquals` | src/main/java/com/github/Frenadol/model/User.java:69-80 | users that are `equals` have the same `hashCode` |
| `Messages.NewMessage` | src/main/java/com/github/Frenadol/model/Message.java:11-16 | the constructor stores sender, receiver, content and timestamp unchanged |
| `Messages.EndpointsByName` | src/main/java/com/github/Frenadol/view/ChatController.java:105-107 | whether a message is from or to a user depends only on names, not on which copy of the user the message holds |
| `UserStore.ParseContacts` | src/main/java/com/github/Frenadol/utils/XmlReader.java:62-71 | the contacts parse exactly when every image decodes, one user per record with its name, digest and decoded image and no contacts |
| `UserStore.ParseUsers` | src/main/java/com/github/Frenadol/utils/XmlReader.java:52-75 | the loop yields the parsed records in order and stops at the first record that fails to parse |
| `UserStore.LoadUsers` | src/main/java/com/github/Frenadol/utils/XmlReader.java:41-81 | a missing or unreadable file gives no users; a readable document gives what the parse loop reads from its records; every loaded user and contact has an image |
| `UserStore.SerializeContacts` | src/main/java/com/github/Frenadol/utils/XmlReader.java:114-132 | each contact is written as name, digest and Base64 image, and writing fails exactly when some image is null |
| `UserStore.Serialize` | src/main/java/com/github/Frenadol/utils/XmlReader.java:98-136 | one record per user in order, and writing fails exactly when some user or contact image is null |
| `UserStore.SaveUsers` | src/main/java/com/github/Frenadol/utils/XmlReader.java:89-147 | with every image present the file becomes one record per user; otherwise the file stays as it was |
| `UserStore.UserRoundTrip` | src/main/java/com/github/Frenadol/utils/XmlReader.java:98-133 | with an inverse Base64, a written user reads back with the same name, digest and image, and contacts without their own contacts |
| `UserStore.SaveThenLoad` | src/main/java/com/github/Frenadol/utils/XmlReader.java:41-147 | saving then loading gives back every user in order, up to the contacts' own contact lists |
| `UserStore.ParsesAll` | src/main/java/com/github/Frenadol/utils/XmlReader.java:52-75 | the parse loop reads every written record back, none aborting |
| `UserStore.NestedContactsLost` | src/main/java/com/github/Frenadol/utils/XmlReader.java:114-132 | a contact that has contacts of its own makes save-then-load differ from the saved list |
| `UserStore.FindUserByName` | src/main/java/com/github/Frenadol/utils/XmlReader.java:209-216 | the answer is the first user with exactly this name, and null means no user has it |
| `UserStore.FindUserByNameAt` | src/main/java/com/github/Frenadol/utils/XmlReader.java:209-216 | the user at the first index holding the name is the one returned |
| `MessageStore.ResolveRecord` | src/main/java/com/github/Frenadol/utils/XmlReader.java:179-192 | a record becomes a message exactly when both names are stored users; the message carries those users and the record's content and timestamp |
| `MessageStore.Resolve` | src/main/java/com/github/Frenadol/utils/XmlReader.java:174-194 | when no kept record's timestamp fails to parse, the messages are exactly the resolvable records, in document order |
| `MessageStore.ResolveStopsAtFirstThrow` | src/main/java/com/github/Frenadol/utils/XmlReader.java:174-197 | a kept record whose timestamp fails to parse ends the load with what the records before it gave |
| `MessageStore.ResolveAppend` | src/main/java/com/github/Frenadol/utils/XmlReader.java:174-194 | one more record adds its message at the end, or nothing when a name is unknown or the time does not parse |
| `MessageStore.LoadMessages` | src/main/java/com/github/Frenadol/utils/XmlReader.java:157-200 | a missing or unreadable file gives no messages; a readable document gives its records resolved against the users read first; every message's sender and receiver is a stored user |
| `MessageStore.ResolvedFromUsers` | src/main/java/com/github/Frenadol/utils/XmlReader.java:184-189 | the loaded messages only ever hold users from the user file |
| `MessageStore.AppendMessage` | src/main/java/com/github/Frenadol/view/ChatController.java:127-169 | the record is appended after the existing ones; a missing file starts a new document; an unreadable one fails |
| `MessageStore.AppendThenLoad` | src/main/java/com/github/Frenadol/view/ChatController.java:143-160 | reading the file back after an append gives the earlier messages plus one with the same names, content and time; an unknown name adds nothing |
| `Login.ControllerHash` | src/main/java/com/github/Frenadol/view/InicieSessionController.java:128-140 | the controller's digest text is always 64 characters |
| `Login.ControllerHashAgreesWithSecurity` | src/main/java/com/github/Frenadol/view/InicieSessionController.java:128-140 | it equals `Security.hashPassword` whenever the platform charset encodes the password as UTF-8 does |
| `Login.HexLoop` | src/main/java/com/github/Frenadol/view/InicieSessionController.java:131-139 | the controller's own byte loop builds exactly `bytesToHex` of the digest |
| `Login.HashPasswordMethod` | src/main/java/com/github/Frenadol/view/InicieSessionController.java:128-140 | the controller's `hashPassword` method gives the controller digest text |
| `Login.HexPrefixStep` | src/main/java/com/github/Frenadol/view/InicieSessionController.java:133-137 | each iteration extends the text by exactly the current byte's two digits |
| `Login.CheckPassword` | src/main/java/com/github/Frenadol/view/InicieSessionController.java:116-119 | a password matches exactly when the stored text decodes to the digest of its platform bytes |
| `Login.CheckPasswordCaseSensitive` | src/main/java/com/github/Frenadol/view/InicieSessionController.java:116-119 | a stored text with any character that is not a lower-case hex digit never matches |
| `Login.FindLogin` | src/main/java/com/github/Frenadol/view/InicieSessionController.java:86-105 | the scan returns the first record with this exact name and a matching digest, and none when no record admits the login |
| `Login.Login` | src/main/java/com/github/Frenadol/view/InicieSessionController.java:40-106 | empty fields are refused first, and only they give that outcome; wrong credentials are reported exactly when the file is missing or no record admits the name and password; login succeeds exactly when some record admits it; an unreadable file is an error; on success the session user is the typed name with the stored digest text passed through the platform charset, and nothing else; otherwise the session is unchanged |
| `MainMenu.ListUsers` | src/main/java/com/github/Frenadol/view/MainMenuController.java:137-147 | the table holds exactly the stored users that are neither the current user nor one of their contacts by exact name, in stored order and with every duplicate kept; without a current user it holds everyone |
| `MainMenu.WithContact` | src/main/java/com/github/Frenadol/view/MainMenuController.java:212-216 | the stored record lists the contact afterwards, appended only when no entry had its name, and keeps its name, digest and image |
| `MainMenu.AddToFirstMatch` | src/main/java/com/github/Frenadol/view/MainMenuController.java:209-219 | only the first user whose name equals the current name ignoring case gains the contact; every other user and every name is kept |
| `MainMenu.AddToFirstMatchIdempotent` | src/main/java/com/github/Frenadol/view/MainMenuController.java:209-219 | running the update twice gives the same users as running it once |
| `MainMenu.LoadContactsForCurrentUser` | src/main/java/com/github/Frenadol/view/MainMenuController.java:240-255 | the current user takes the contacts of the first stored user with its exact name, and nothing else changes; without such a user or a current user the session is unchanged |
| `MainMenu.ConfirmAndAddContact` | src/main/java/com/github/Frenadol/view/MainMenuController.java:178-232 | each outcome holds exactly in its own case, checked in order: nothing selected, no current user, an existing contact ignoring case, a declined dialog, else the add; every refusal changes nothing; a confirmed add saves the updated users and refreshes only the session user's contacts from the stored record |
| `MainMenu.AddKeepsImages` | src/main/java/com/github/Frenadol/view/MainMenuController.java:209-220 | the updated list still has every image, so the save after an add with an imaged contact always writes |
| `MainMenu.SecondAddRefused` | src/main/java/com/github/Frenadol/view/MainMenuController.java:192-228 | when no stored name differs from the current user's only in case, a confirmed add of a new contact makes a second request for it a refused duplicate |
| `MainMenu.AddedContactListed` | src/main/java/com/github/Frenadol/view/MainMenuController.java:207-228 | after a confirmed add of a new contact, the session user lists it by name |
| `MainMenu.StoredRecordListsContact` | src/main/java/com/github/Frenadol/view/MainMenuController.java:209-225 | after the update is saved and reloaded, the current user's exact-name record lists the contact |
| `MainMenu.CaseVariantGetsTheContact` | src/main/java/com/github/Frenadol/view/MainMenuController.java:209-225 | when a case-variant of the current name is stored first, that user gains the contact and every exact-name record is left unchanged |
| `MainMenu.MutualContacts` | src/main/java/com/github/Frenadol/view/MainMenuController.java:268-275 | the gate holds exactly when both users are stored under these exact names and each one's contacts name the other: both directions of the check |
| `MainMenu.MutualContactsSymmetric` | src/main/java/com/github/Frenadol/view/MainMenuController.java:271-275 | the gate gives the same answer whichever of the two users asks |
| `MainMenu.OneWayContactIsNotMutual` | src/main/java/com/github/Frenadol/view/MainMenuController.java:271-281 | when one side does not list the other, no chat opens in either direction |
| `MainMenu.ChattedWithContact` | src/main/java/com/github/Frenadol/view/MainMenuController.java:261-286 | a chat opens exactly when both parties are stored and mutual contacts, selecting the stored copy of the contact; in every other case the session is unchanged |
| `Chat.Conversation` | src/main/java/com/github/Frenadol/view/ChatController.java:224-229 | the conversation is exactly the messages in either direction between the two users, in file order, each stored copy kept once per copy |
| `Chat.NoSelectionNoConversation` | src/main/java/com/github/Frenadol/view/ChatController.java:224-229 | with no selected user, no message belongs to the conversation |
| `Chat.DisplayLines` | src/main/java/com/github/Frenadol/view/ChatController.java:104-110 | the loop adds at most one list line per message |
| `Chat.DisplayOnlyConversation` | src/main/java/com/github/Frenadol/view/ChatController.java:104-110 | the display depends only on the conversation's messages; all others add nothing |
| `Chat.DisplayOfConversation` | src/main/java/com/github/Frenadol/view/ChatController.java:104-110 | over a conversation, line k is "Para <contact>: " or "De <contact>: " followed by message k's content |
| `Chat.DisplayFollowsConversation` | src/main/java/com/github/Frenadol/view/ChatController.java:104-110 | the list has one line per conversation message, in the same order |
| `Chat.DisplayLinesAppend` | src/main/java/com/github/Frenadol/view/ChatController.java:104-110 | the lines of a longer message list extend the lines of its prefix |
| `Chat.DisplayMessages` | src/main/java/com/github/Frenadol/view/ChatController.java:100-115 | the screen shows one line per conversation message from the file, line k being the "Para"/"De" label of message k, and none without a selected user |
| `Chat.TranscriptLine` | src/main/java/com/github/Frenadol/view/ChatController.java:178-183 | the line is exactly "[" timestamp "] " sender " a " receiver ": " content and a newline: its length and every field and separator at its position |
| `Chat.ExportLineIsTranscriptLine` | src/main/java/com/github/Frenadol/view/ChatController.java:241-246 | with a "\n" line separator, an exported line is the transcript line of the same message |
| `Chat.TranscriptLineSingleBreak` | src/main/java/com/github/Frenadol/view/ChatController.java:180-181 | a content without a newline gives a transcript line whose only newline is the last character |
| `Chat.ExportText` | src/main/java/com/github/Frenadol/view/ChatController.java:241-246 | the exported text is empty exactly when the conversation is |
| `Chat.ExportMatchesTranscript` | src/main/java/com/github/Frenadol/view/ChatController.java:241-246 | with a "\n" separator the export is the conversation's transcript lines in order |
| `Chat.SendMessage` | src/main/java/com/github/Frenadol/view/ChatController.java:190-208 | empty text or no selected user sends nothing; a send succeeds exactly when there is also a current user and a readable file; it appends the record, the transcript line and "A <contact>: <content>"; anything short of success changes nothing |
| `Chat.DisplayOutgoingLast` | src/main/java/com/github/Frenadol/view/ChatController.java:105-106 | an outgoing message read last adds its "Para" line after all earlier lines |
| `Chat.AppendedMessageLast` | src/main/java/com/github/Frenadol/view/ChatController.java:127-169 | a message between stored users reads back last, after every message read before it |
| `Chat.SentMessageDisplayedOnReload` | src/main/java/com/github/Frenadol/view/ChatController.java:193-199 | after a send between stored users, the next display is the previous one plus "Para <contact>: <content>" |
| `Chat.ExportConversation` | src/main/java/com/github/Frenadol/view/ChatController.java:214-253 | no selected user refuses; a closed dialog writes nothing; otherwise the chosen file holds exactly the conversation's printed lines |
| `Chat.DisplayAndExportAgree` | src/main/java/com/github/Frenadol/view/ChatController.java:224-246 | display and export cover the same messages: one list line per exported line, both in file order |

## Left out

- The JavaFX screens: `PrimaryController` (the start screen that opens the register or the login screen), `SplashController`, `MessageListCell`, alerts, tables, the FXML loading and `loadChatScreen`. They are presentation only; the controller behind the registration screen is not part of this model.
- The SHA3-256 algorithm, the charset codecs and Base64 are opaque functions. They are fields of `Security.Platform` and `UserStore.Base64`, and only their declared shapes are used: a 32-byte digest, and Base64 decoding inverting encoding where a lemma requires it.
- DOM parsing and serialisation, file paths and the file system are left out. A file is a value: absent, unreadable, or a list of records. The indentation and text layout of the XML are not modelled.
- An `IOException` while writing the transcript or the exported file is left out. The write into the transcript or the chosen file is assumed to succeed once the message file was written.
- `LocalDateTime.now()` and `LocalDateTime.toString()` are not modelled. The current time is the `now` text parameter. `LocalDateTime.parse` is the `parses` predicate.
- `XmlReader.isUserExists` is not used by the modelled core.
- `SessionManager` is replaced by the explicit `Sessions.Session` value.
- `User.getContacts`: its null branch is not modelled, because every constructor and `setContacts` already replace null by an empty list.
- Null user names are not modelled. Every stored and typed name is a string.
- `messageField.clear()`, `userList.remove(selectedContact)` and the table refresh after an add are left out. They affect only widgets.
- `Text.EqualsIgnoreCase`: case folding covers the ASCII letters only. Java's `equalsIgnoreCase` also folds the other Unicode letters that have case.
- `Users.HashCode`: characters are Dafny's Unicode scalar values. Java hashes UTF-16 code units, so the value differs for characters outside the Basic Multilingual Plane. The 32-bit wrap-around is modelled.
- `Login.Login`: `System.out.println(userLogin)` is left out.
- `NoSuchAlgorithmException` from `MessageDigest.getInstance("SHA3-256")` is not modelled. Hashing is treated as total: the digest is a field of `Security.Platform`, and a platform without SHA3-256 has no counterpart in the model.
