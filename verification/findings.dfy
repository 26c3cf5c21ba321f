/**
 * The server tests for a user or group with `users[username]` and
 * `groups[groupName]` on objects made by `JSON.parse`. Those objects inherit
 * from `Object.prototype`, so the test is also truthy for the inherited
 * method names. This module models that lookup as written; the rest of the
 * model uses own-key membership, which is what the checks evidently mean.
 */
module Findings {
  import opened Wrappers
  import opened Hex
  import Cbc
  import Cipher
  import opened Chat

  /** Property names every plain object inherits from `Object.prototype`. */
  const InheritedNames: set<string> := {
    "constructor", "hasOwnProperty", "isPrototypeOf", "propertyIsEnumerable",
    "toLocaleString", "toString", "valueOf", "__proto__",
    "__defineGetter__", "__defineSetter__", "__lookupGetter__", "__lookupSetter__"
  }

  /** `obj[key]` is truthy: an own entry (records and arrays are truthy) or an inherited member. */
  predicate JsTruthyLookup<V>(m: map<string, V>, key: string) {
    key in m || key in InheritedNames
  }

  /** POST /register with the lookup as written. */
  function RegisterAsWritten(s: State, h: Hasher, username: string, password: string, description: string,
                             upload: Option<string>, salt: string): (o: Outcome)
    ensures JsTruthyLookup(s.users, username) ==> o == Outcome(s, Ok("Username already exists!"))
    ensures !JsTruthyLookup(s.users, username) ==>
              o.response == Ok("Registration successful!") && username in o.state.users
  {
    if JsTruthyLookup(s.users, username) then Outcome(s, Ok("Username already exists!"))
    else
      var user := User(h.hash(password, salt), description, AvatarUrlFor(upload));
      Outcome(s.(users := s.users[username := user]), Ok("Registration successful!"))
  }

  /**
   * "toString" can never be registered as written, though no such user
   * exists; the corrected `Register` accepts it.
   */
  lemma InheritedNameCannotRegister(h: Hasher, password: string, description: string, salt: string)
    ensures var s := State(map[], map[], map[]);
            && "toString" !in s.users
            && RegisterAsWritten(s, h, "toString", password, description, None, salt).response
               == Ok("Username already exists!")
            && Register(s, h, "toString", password, description, None, salt).response
               == Ok("Registration successful!")
  {
  }

  /** The corrected check refuses a name exactly when an account with that name exists. */
  lemma RegisterRefusesExactlyTakenNames(s: State, h: Hasher, username: string, password: string,
                                         description: string, upload: Option<string>, salt: string)
    ensures (Register(s, h, username, password, description, upload, salt).response
             == Ok("Username already exists!")) <==> username in s.users
  {
  }

  /** Both agree on every name that is not inherited. */
  lemma AsWrittenAgreesOffInheritedNames(s: State, h: Hasher, username: string, password: string,
                                         description: string, upload: Option<string>, salt: string)
    requires username !in InheritedNames
    ensures RegisterAsWritten(s, h, username, password, description, upload, salt)
         == Register(s, h, username, password, description, upload, salt)
  {
  }

  /**
   * POST /message with both lookups as written. An inherited sender name
   * passes; its `avatarUrl` is undefined, so the default avatar is stored.
   * An inherited group name passes too, but it has no `push`, so the
   * handler throws before anything is saved.
   */
  function SendMessageAsWritten(s: State, c: Cbc.BlockCipher, username: string, token: string, group: string,
                                content: seq<byte>, iv: Cbc.Block, now: string): (o: Outcome)
    ensures !JsTruthyLookup(s.users, username) ==>
              o == Outcome(s, Response(403, Note("Unauthorized: User does not exist.")))
    ensures JsTruthyLookup(s.users, username) && !JsTruthyLookup(s.groups, group) ==>
              o == Outcome(s, Response(404, Note("Group not found.")))
    ensures JsTruthyLookup(s.users, username) && group !in s.groups && group in InheritedNames ==>
              o == Outcome(s, Response(500, ServerError))
    ensures JsTruthyLookup(s.users, username) && group in s.groups ==>
              && o.response == Ok("Message sent successfully.")
              && group in o.state.groups
              && |o.state.groups[group]| == |s.groups[group]| + 1
              && o.state.groups[group][..|s.groups[group]|] == s.groups[group]
              && o.state.groups[group][|s.groups[group]|].username == username
              && o.state.groups[group][|s.groups[group]|].content == Cipher.Encrypt(c, iv, content)
              && o.state.groups[group][|s.groups[group]|].timestamp == now
              && o.state.groups[group][|s.groups[group]|].avatarUrl
                 == (if username in s.users then AvatarOrDefault(s.users[username].avatarUrl) else DefaultAvatar)
              && o.state.groups.Keys == s.groups.Keys
              && (forall g :: g in s.groups && g != group ==> o.state.groups[g] == s.groups[g])
              && o.state.users == s.users
              && o.state.validTokens == s.validTokens
  {
    if !JsTruthyLookup(s.users, username) then
      Outcome(s, Response(403, Note("Unauthorized: User does not exist.")))
    else if !JsTruthyLookup(s.groups, group) then Outcome(s, Response(404, Note("Group not found.")))
    else if group !in s.groups then Outcome(s, Response(500, ServerError))
    else
      var avatar := if username in s.users then AvatarOrDefault(s.users[username].avatarUrl) else DefaultAvatar;
      var msgs := s.groups[group] + [StoredMessage(username, Cipher.Encrypt(c, iv, content), now, avatar)];
      assert msgs[..|s.groups[group]|] == s.groups[group];
      Outcome(s.(groups := s.groups[group := msgs]), Ok("Message sent successfully."))
  }

  /**
   * As written, a sender called "toString" with no account posts into an
   * existing group and the record is stored under that name; the corrected
   * `SendMessage` answers 403 and stores nothing.
   */
  lemma InheritedSenderIsAccepted(c: Cbc.BlockCipher, iv: Cbc.Block, content: seq<byte>, now: string)
    ensures var s := State(map[], map["general" := []], map[]);
            var o := SendMessageAsWritten(s, c, "toString", "", "general", content, iv, now);
            && "toString" !in o.state.users
            && o.response == Ok("Message sent successfully.")
            && o.state.groups["general"][0].username == "toString"
            && SendMessage(s, c, "toString", "", "general", content, iv, now)
               == Outcome(s, Response(403, Note("Unauthorized: User does not exist.")))
  {
  }

  /** The corrected send stores records only under names that have an account. */
  lemma SendStoresOnlyAccountHolders(s: State, c: Cbc.BlockCipher, username: string, token: string,
                                     group: string, content: seq<byte>, iv: Cbc.Block, now: string)
    requires group in s.groups
    ensures var o := SendMessage(s, c, username, token, group, content, iv, now);
            |o.state.groups[group]| > |s.groups[group]| ==> username in s.users
  {
  }
}
