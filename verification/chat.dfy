/**
 * The chat server's routes as one state machine over three in-memory maps:
 * registered users, groups with their message lists, and the token each
 * logged-in user was last issued. Every route is a pure function from the
 * current state and the request to the next state and the response.
 *
 * Fresh values the server draws itself (the bcrypt salt, the uuid token, the
 * IV, the clock's ISO timestamp, multer's file name) arrive as arguments;
 * bcrypt and AES arrive as `Hasher` and `BlockCipher` values.
 */
module Chat {
  import opened Wrappers
  import opened Hex
  import Cbc
  import Cipher

  /** A `users` entry: `{password, description, avatarUrl}`. */
  datatype User = User(passwordHash: string, description: string, avatarUrl: Option<string>)

  /** A record in a group's list; `content` is the cipher envelope. */
  datatype StoredMessage = StoredMessage(username: string, content: string, timestamp: string, avatarUrl: string)

  /** A record as `GET /messages/:group` returns it, content decrypted. */
  datatype ShownMessage = ShownMessage(username: string, content: seq<byte>, timestamp: string, avatarUrl: string)

  datatype State = State(
    users: map<string, User>,
    groups: map<string, seq<StoredMessage>>,
    validTokens: map<string, string>)

  datatype Body =
    | Note(message: string)
    | LoggedIn(message: string, token: string, username: string)
    | Names(names: seq<string>)
    | Messages(items: seq<ShownMessage>)
      /** Express's default answer to a handler that threw. */
    | ServerError

  datatype Response = Response(status: int, body: Body)

  datatype Outcome = Outcome(state: State, response: Response)

  /** bcrypt: `hash(password, salt)` and `compare(password, hash)`. */
  datatype Hasher = Hasher(hash: (string, string) -> string, compare: (string, string) -> bool)

  /** A password always matches a hash made from it. */
  ghost predicate Sound(h: Hasher) {
    forall password, salt :: h.compare(password, h.hash(password, salt))
  }

  const DefaultAvatar: string := "/default-avatar.png"
  const UploadDir: string := "/uploads/"

  /** The 200 replies that report a failure. */
  const FailureNotes: set<string> :=
    {"Username already exists!", "User does not exist!", "Invalid password!", "Group already exists!"}

  function Ok(message: string): Response {
    Response(200, Note(message))
  }

  /** A response that reports that the request was refused or failed. */
  predicate Rejected(r: Response) {
    r.status != 200 || (r.body.Note? && r.body.message in FailureNotes)
  }

  /** Exactly `username`'s account and token are gone; nothing else differs. */
  ghost predicate RemovedUser(s: State, s': State, username: string) {
    && s'.users.Keys == s.users.Keys - {username}
    && (forall u :: u in s'.users ==> s'.users[u] == s.users[u])
    && s'.validTokens.Keys == s.validTokens.Keys - {username}
    && (forall u :: u in s'.validTokens ==> s'.validTokens[u] == s.validTokens[u])
    && s'.groups == s.groups
  }

  /** `isTokenValid`: the token is the current token of some user. */
  predicate IsTokenValid(s: State, token: string): (b: bool)
    ensures b <==> exists u :: u in s.validTokens && s.validTokens[u] == token
  {
    token in s.validTokens.Values
  }

  /** The `avatarUrl` stored at registration: the uploaded file's path, or null. */
  function AvatarUrlFor(upload: Option<string>): (url: Option<string>)
    ensures upload.None? <==> url.None?
    ensures url.Some? ==> UploadDir <= url.value && url.value[|UploadDir|..] == upload.value
    ensures url.Some? ==> url.value != "" && url.value != DefaultAvatar
  {
    match upload
    case None => None
    case Some(fileName) =>
      var url := UploadDir + fileName;
      assert url[1] == 'u' && DefaultAvatar[1] == 'd';
      Some(url)
  }

  /** `user.avatarUrl || '/default-avatar.png'`: null and "" are falsy. */
  function AvatarOrDefault(url: Option<string>): (shown: string)
    ensures shown != ""
    ensures url.Some? && url.value != "" ==> shown == url.value
    ensures url.None? || url.value == "" ==> shown == DefaultAvatar
  {
    match url
    case Some(u) => if u == "" then DefaultAvatar else u
    case None => DefaultAvatar
  }

  /** POST /register. */
  function Register(s: State, h: Hasher, username: string, password: string, description: string,
                    upload: Option<string>, salt: string): (o: Outcome)
    ensures username in s.users ==> o == Outcome(s, Ok("Username already exists!"))
    ensures username !in s.users ==>
              && o.response == Ok("Registration successful!")
              && o.state.users.Keys == s.users.Keys + {username}
              && o.state.users[username] == User(h.hash(password, salt), description, AvatarUrlFor(upload))
              && (forall u :: u in s.users ==> o.state.users[u] == s.users[u])
              && o.state.groups == s.groups
              && o.state.validTokens == s.validTokens
  {
    if username in s.users then Outcome(s, Ok("Username already exists!"))
    else
      var user := User(h.hash(password, salt), description, AvatarUrlFor(upload));
      Outcome(s.(users := s.users[username := user]), Ok("Registration successful!"))
  }

  /** POST /login; `token` is the uuid a successful login would issue. */
  function Login(s: State, h: Hasher, username: string, password: string, token: string): (o: Outcome)
    ensures username !in s.users ==> o == Outcome(s, Ok("User does not exist!"))
    ensures username in s.users && !h.compare(password, s.users[username].passwordHash) ==>
              o == Outcome(s, Ok("Invalid password!"))
    ensures username in s.users && h.compare(password, s.users[username].passwordHash) ==>
              && o.response == Response(200, LoggedIn("Login successful!", token, username))
              && o.state.validTokens.Keys == s.validTokens.Keys + {username}
              && o.state.validTokens[username] == token
              && (forall u :: u in s.validTokens && u != username ==> o.state.validTokens[u] == s.validTokens[u])
              && o.state.users == s.users
              && o.state.groups == s.groups
              && IsTokenValid(o.state, token)
  {
    if username !in s.users then Outcome(s, Ok("User does not exist!"))
    else if h.compare(password, s.users[username].passwordHash) then
      var s' := s.(validTokens := s.validTokens[username := token]);
      assert s'.validTokens[username] == token;
      Outcome(s', Response(200, LoggedIn("Login successful!", token, username)))
    else Outcome(s, Ok("Invalid password!"))
  }

  /** POST /groups. */
  function CreateGroup(s: State, groupName: string): (o: Outcome)
    ensures groupName in s.groups ==> o == Outcome(s, Ok("Group already exists!"))
    ensures groupName !in s.groups ==>
              && o.response == Ok("Group created successfully!")
              && o.state.groups.Keys == s.groups.Keys + {groupName}
              && o.state.groups[groupName] == []
              && (forall g :: g in s.groups ==> o.state.groups[g] == s.groups[g])
              && o.state.users == s.users
              && o.state.validTokens == s.validTokens
  {
    if groupName in s.groups then Outcome(s, Ok("Group already exists!"))
    else Outcome(s.(groups := s.groups[groupName := []]), Ok("Group created successfully!"))
  }

  /** GET /groups: every group name once, in no promised order. */
  method ListGroups(s: State) returns (r: Response)
    ensures r.status == 200 && r.body.Names?
    ensures forall g :: g in r.body.names <==> g in s.groups
    ensures forall i, j :: 0 <= i < j < |r.body.names| ==> r.body.names[i] != r.body.names[j]
  {
    var names: seq<string> := [];
    var rest := s.groups.Keys;
    while rest != {}
      invariant rest <= s.groups.Keys
      invariant forall g :: g in names <==> g in s.groups.Keys - rest
      invariant forall i, j :: 0 <= i < j < |names| ==> names[i] != names[j]
      decreases rest
    {
      var g :| g in rest;
      assert g !in names;
      names := names + [g];
      rest := rest - {g};
    }
    r := Response(200, Names(names));
  }

  /** The record `POST /message` appends. */
  function Record(s: State, c: Cbc.BlockCipher, username: string, content: seq<byte>,
                  iv: Cbc.Block, now: string): StoredMessage
    requires username in s.users
  {
    StoredMessage(username, Cipher.Encrypt(c, iv, content), now, AvatarOrDefault(s.users[username].avatarUrl))
  }

  /**
   * POST /message. The sender must be a registered user and the group must
   * exist; `token` is read from the body but never checked.
   */
  function SendMessage(s: State, c: Cbc.BlockCipher, username: string, token: string, group: string,
                       content: seq<byte>, iv: Cbc.Block, now: string): (o: Outcome)
    ensures username !in s.users ==>
              o == Outcome(s, Response(403, Note("Unauthorized: User does not exist.")))
    ensures username in s.users && group !in s.groups ==>
              o == Outcome(s, Response(404, Note("Group not found.")))
    ensures username in s.users && group in s.groups ==>
              && o.response == Ok("Message sent successfully.")
              && o.state.groups.Keys == s.groups.Keys
              && |o.state.groups[group]| == |s.groups[group]| + 1
              && o.state.groups[group][..|s.groups[group]|] == s.groups[group]
              && o.state.groups[group][|s.groups[group]|] == Record(s, c, username, content, iv, now)
              && (forall g :: g in s.groups && g != group ==> o.state.groups[g] == s.groups[g])
              && o.state.users == s.users
              && o.state.validTokens == s.validTokens
  {
    if username !in s.users then Outcome(s, Response(403, Note("Unauthorized: User does not exist.")))
    else if group !in s.groups then Outcome(s, Response(404, Note("Group not found.")))
    else
      var msgs := s.groups[group] + [Record(s, c, username, content, iv, now)];
      assert msgs[..|s.groups[group]|] == s.groups[group];
      Outcome(s.(groups := s.groups[group := msgs]), Ok("Message sent successfully."))
  }

  /** The server's `decrypt` under the process key, as the read's map callback uses it. */
  function Decryptor(c: Cbc.BlockCipher): string -> Option<seq<byte>> {
    env => Cipher.Decrypt(c, env)
  }

  /** Every stored record of the list decrypts. */
  ghost predicate AllDecrypt(decrypt: string -> Option<seq<byte>>, msgs: seq<StoredMessage>) {
    forall i :: 0 <= i < |msgs| ==> decrypt(msgs[i].content).Some?
  }

  /** `shown` is `m` with its content decrypted and every other field copied. */
  ghost predicate ShowsAs(decrypt: string -> Option<seq<byte>>, m: StoredMessage, shown: ShownMessage) {
    && shown.username == m.username
    && decrypt(m.content) == Some(shown.content)
    && shown.timestamp == m.timestamp
    && shown.avatarUrl == m.avatarUrl
  }

  /** One record as the read returns it, `None` when its `decrypt` throws. */
  function Show(decrypt: string -> Option<seq<byte>>, m: StoredMessage): (r: Option<ShownMessage>)
    ensures r.Some? <==> decrypt(m.content).Some?
    ensures r.Some? ==> ShowsAs(decrypt, m, r.value)
  {
    match decrypt(m.content)
    case None => None
    case Some(text) => Some(ShownMessage(m.username, text, m.timestamp, m.avatarUrl))
  }

  /**
   * `groups[group].map(msg => ({..., content: decrypt(msg.content), ...}))`;
   * `None` when some `decrypt` throws.
   */
  function ShowAll(decrypt: string -> Option<seq<byte>>, msgs: seq<StoredMessage>): (r: Option<seq<ShownMessage>>)
    ensures r.Some? <==> AllDecrypt(decrypt, msgs)
    ensures r.Some? ==> |r.value| == |msgs|
    ensures r.Some? ==> forall i :: 0 <= i < |msgs| ==> ShowsAs(decrypt, msgs[i], r.value[i])
    decreases |msgs|
  {
    if |msgs| == 0 then Some([])
    else
      var head := Show(decrypt, msgs[0]);
      var tail := ShowAll(decrypt, msgs[1..]);
      assert forall i :: 1 <= i < |msgs| ==> msgs[i] == msgs[1..][i - 1];
      if head.None? || tail.None? then None
      else
        var shown := [head.value] + tail.value;
        assert forall i :: 1 <= i < |msgs| ==> shown[i] == tail.value[i - 1];
        Some(shown)
  }

  /** GET /messages/:group. A `decrypt` that throws makes the whole request fail with 500. */
  function ReadMessages(s: State, c: Cbc.BlockCipher, group: string): (r: Response)
    ensures group !in s.groups ==> r == Response(404, Note("Group not found"))
    ensures group in s.groups && !AllDecrypt(Decryptor(c), s.groups[group]) ==> r == Response(500, ServerError)
    ensures group in s.groups && AllDecrypt(Decryptor(c), s.groups[group]) ==>
              && r.status == 200 && r.body.Messages?
              && Some(r.body.items) == ShowAll(Decryptor(c), s.groups[group])
  {
    if group !in s.groups then Response(404, Note("Group not found"))
    else
      match ShowAll(Decryptor(c), s.groups[group])
      case None => Response(500, ServerError)
      case Some(items) => Response(200, Messages(items))
  }

  /** `deleteUserAccount`: drop the user record and the user's token. */
  function DeleteUserAccount(s: State, username: string): (s': State)
    ensures RemovedUser(s, s', username)
  {
    s.(users := s.users - {username}, validTokens := s.validTokens - {username})
  }

  /**
   * POST /delete-account. Any currently valid token authorises deleting any
   * username, including one that does not exist.
   */
  function DeleteAccount(s: State, username: string, token: string): (o: Outcome)
    ensures !IsTokenValid(s, token) ==> o == Outcome(s, Response(401, Note("Unauthorized")))
    ensures IsTokenValid(s, token) ==>
              o.response == Ok("Account deleted successfully") && RemovedUser(s, o.state, username)
  {
    if !IsTokenValid(s, token) then Outcome(s, Response(401, Note("Unauthorized")))
    else Outcome(DeleteUserAccount(s, username), Ok("Account deleted successfully"))
  }
}
