/**
 * The routes as one state machine, and what holds across several requests:
 * the invariants every request keeps, the register-then-login and
 * send-then-read round trips, and what deleting an account does to tokens.
 */
module Properties {
  import opened Wrappers
  import opened Hex
  import Cbc
  import Cipher
  import opened Chat

  /** A request to one of the state-changing or message-reading routes, with its fresh values. */
  datatype Request =
    | RegisterReq(username: string, password: string, description: string, upload: Option<string>, salt: string)
    | LoginReq(username: string, password: string, freshToken: string)
    | CreateGroupReq(groupName: string)
    | SendMessageReq(username: string, token: string, group: string, content: seq<byte>, iv: Cbc.Block, now: string)
    | ReadMessagesReq(group: string)
    | DeleteAccountReq(username: string, token: string)

  /** The server's foreign services: bcrypt and AES under the process key. */
  datatype Services = Services(hasher: Hasher, cipher: Cbc.BlockCipher)

  /** Only registered users hold a token. */
  predicate TokensBelongToUsers(s: State) {
    s.validTokens.Keys <= s.users.Keys
  }

  /** One request handled against the state. */
  function Step(s: State, env: Services, req: Request): (o: Outcome)
    ensures Rejected(o.response) ==> o.state == s
  {
    match req
    case RegisterReq(u, p, d, a, salt) => Register(s, env.hasher, u, p, d, a, salt)
    case LoginReq(u, p, t) => Login(s, env.hasher, u, p, t)
    case CreateGroupReq(g) => CreateGroup(s, g)
    case SendMessageReq(u, t, g, m, iv, now) => SendMessage(s, env.cipher, u, t, g, m, iv, now)
    case ReadMessagesReq(g) => Outcome(s, ReadMessages(s, env.cipher, g))
    case DeleteAccountReq(u, t) => DeleteAccount(s, u, t)
  }

  /**
   * Every request keeps the ledger append-only (no group disappears and no
   * stored record changes), adds users only by registering that username,
   * and hands out tokens only to registered users.
   */
  lemma StepInvariants(s: State, env: Services, req: Request)
    ensures var o := Step(s, env, req);
            forall g :: g in s.groups ==> g in o.state.groups && s.groups[g] <= o.state.groups[g]
    ensures !req.RegisterReq? ==> Step(s, env, req).state.users.Keys <= s.users.Keys
    ensures req.RegisterReq? ==> Step(s, env, req).state.users.Keys <= s.users.Keys + {req.username}
    ensures TokensBelongToUsers(s) ==> TokensBelongToUsers(Step(s, env, req).state)
  {
  }

  /** A second registration under a taken name fails and keeps the first record. */
  lemma RegisterTwiceKeepsFirst(s: State, h: Hasher, username: string,
                                p1: string, d1: string, a1: Option<string>, salt1: string,
                                p2: string, d2: string, a2: Option<string>, salt2: string)
    requires username !in s.users
    ensures var s1 := Register(s, h, username, p1, d1, a1, salt1).state;
            var o2 := Register(s1, h, username, p2, d2, a2, salt2);
            && o2.response == Ok("Username already exists!")
            && o2.state.users[username] == User(h.hash(p1, salt1), d1, AvatarUrlFor(a1))
  {
  }

  /**
   * With a sound bcrypt, logging in with the password just registered
   * succeeds, and the issued token then passes `isTokenValid`.
   */
  lemma RegisterThenLogin(s: State, h: Hasher, username: string, password: string, description: string,
                          upload: Option<string>, salt: string, token: string)
    requires Sound(h)
    requires username !in s.users
    ensures var s1 := Register(s, h, username, password, description, upload, salt).state;
            var o2 := Login(s1, h, username, password, token);
            && o2.response == Response(200, LoggedIn("Login successful!", token, username))
            && o2.state.validTokens[username] == token
            && IsTokenValid(o2.state, token)
  {
  }

  /** `POST /message` answers the same whatever token the body carries. */
  lemma SendIgnoresToken(s: State, c: Cbc.BlockCipher, username: string, t1: string, t2: string,
                         group: string, content: seq<byte>, iv: Cbc.Block, now: string)
    ensures SendMessage(s, c, username, t1, group, content, iv, now)
         == SendMessage(s, c, username, t2, group, content, iv, now)
  {
  }

  /** A record stored by a send is shown with exactly the text, sender, timestamp and avatar it was stored with. */
  lemma ShowEncrypted(c: Cbc.BlockCipher, username: string, iv: Cbc.Block, text: seq<byte>,
                      timestamp: string, avatarUrl: string)
    requires Cbc.Invertible(c)
    ensures Show(Decryptor(c), StoredMessage(username, Cipher.Encrypt(c, iv, text), timestamp, avatarUrl))
         == Some(ShownMessage(username, text, timestamp, avatarUrl))
  {
    Cipher.DecryptEncrypt(c, iv, text);
  }

  /**
   * After a successful send, reading the group yields what it yielded
   * before followed by the new message, its content decrypted back to the
   * text that was sent.
   */
  lemma SendThenRead(s: State, c: Cbc.BlockCipher, username: string, token: string, group: string,
                     content: seq<byte>, iv: Cbc.Block, now: string)
    requires Cbc.Invertible(c)
    requires username in s.users && group in s.groups
    requires AllDecrypt(Decryptor(c), s.groups[group])
    ensures var s' := SendMessage(s, c, username, token, group, content, iv, now).state;
            var shown := ShownMessage(username, content, now, AvatarOrDefault(s.users[username].avatarUrl));
            ReadMessages(s', c, group) == Response(200, Messages(ShowAll(Decryptor(c), s.groups[group]).value + [shown]))
  {
    var s' := SendMessage(s, c, username, token, group, content, iv, now).state;
    var rec := Record(s, c, username, content, iv, now);
    assert s'.groups[group] == s.groups[group] + [rec];
    ShowEncrypted(c, username, iv, content, now, AvatarOrDefault(s.users[username].avatarUrl));
    ShowAllAppend(Decryptor(c), s.groups[group], rec);
  }

  /** Reading a list with one more record shows one more message at the end. */
  lemma ShowAllAppend(decrypt: string -> Option<seq<byte>>, msgs: seq<StoredMessage>, m: StoredMessage)
    requires AllDecrypt(decrypt, msgs) && Show(decrypt, m).Some?
    ensures ShowAll(decrypt, msgs + [m]) == Some(ShowAll(decrypt, msgs).value + [Show(decrypt, m).value])
  {
    var all := msgs + [m];
    assert AllDecrypt(decrypt, all) by {
      forall i | 0 <= i < |all|
        ensures decrypt(all[i].content).Some?
      {
        if i < |msgs| { assert all[i] == msgs[i]; }
      }
    }
    var prev := ShowAll(decrypt, msgs).value;
    var got := ShowAll(decrypt, all).value;
    var want := prev + [Show(decrypt, m).value];
    assert |got| == |want|;
    forall i | 0 <= i < |got|
      ensures got[i] == want[i]
    {
      if i < |msgs| {
        assert all[i] == msgs[i];
      }
    }
    assert got == want;
  }

  /**
   * Two sends into an empty group, then a read: the contents come back in
   * the order sent, with the timestamps the two sends were given.
   */
  lemma MessagesReadInSendOrder(s: State, c: Cbc.BlockCipher, username: string, token: string,
                                group: string, first: seq<byte>, second: seq<byte>,
                                iv1: Cbc.Block, iv2: Cbc.Block, now1: string, now2: string)
    requires Cbc.Invertible(c)
    requires username in s.users && group in s.groups && s.groups[group] == []
    ensures var s1 := SendMessage(s, c, username, token, group, first, iv1, now1).state;
            var s2 := SendMessage(s1, c, username, token, group, second, iv2, now2).state;
            var r := ReadMessages(s2, c, group);
            && r.status == 200 && r.body.Messages? && |r.body.items| == 2
            && r.body.items[0].content == first && r.body.items[1].content == second
            && r.body.items[0].timestamp == now1 && r.body.items[1].timestamp == now2
  {
    var s1 := SendMessage(s, c, username, token, group, first, iv1, now1).state;
    SendThenRead(s, c, username, token, group, first, iv1, now1);
    assert ReadMessages(s1, c, group).status == 200;
    assert AllDecrypt(Decryptor(c), s1.groups[group]);
    SendThenRead(s1, c, username, token, group, second, iv2, now2);
  }

  /**
   * Deleting an account revokes that user's token: once the deletion
   * succeeds, a token no other user holds no longer passes `isTokenValid`.
   */
  lemma DeleteRevokesToken(s: State, username: string, callerToken: string)
    requires IsTokenValid(s, callerToken)
    requires username in s.validTokens
    requires forall u :: u in s.validTokens && u != username ==> s.validTokens[u] != s.validTokens[username]
    ensures var o := DeleteAccount(s, username, callerToken);
            && username !in o.state.users
            && !IsTokenValid(o.state, s.validTokens[username])
  {
  }

  /** As written, one user's valid token deletes another user's account. */
  lemma AnyTokenDeletesAnyAccount(s: State, owner: string, victim: string)
    requires owner in s.validTokens && victim in s.users && owner != victim
    ensures var o := DeleteAccount(s, victim, s.validTokens[owner]);
            && o.response == Ok("Account deleted successfully")
            && victim !in o.state.users
            && owner in o.state.validTokens
  {
  }

  /** Deleting a name that has no account and no token succeeds and changes nothing. */
  lemma DeleteAbsentIsNoOp(s: State, username: string, token: string)
    requires IsTokenValid(s, token)
    requires username !in s.users && username !in s.validTokens
    ensures DeleteAccount(s, username, token) == Outcome(s, Ok("Account deleted successfully"))
  {
  }
}
