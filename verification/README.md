# Group-chat server: routes, sessions and encrypted message storage

This project models the request handlers of a small Express group-chat
server (`server.js`) and proves properties of the model in Dafny.

The server keeps three stores:

- `users`: username → `{password, description, avatarUrl}`, the password as a bcrypt hash;
- `groups`: group name → the ordered list of that group's messages, each
  `{username, content, timestamp, avatarUrl}` with `content` encrypted;
- `validTokens`: username → the token of that user's last login (in memory only).

Each route is a pure function from the state and the request to the next
state and the response (`Chat` module):

- `POST /register` refuses a taken username and otherwise stores the user.
- `POST /login` issues a token when the password matches, replacing the user's previous token.
- `POST /groups` refuses an existing name and otherwise adds an empty group.
- `GET /groups` lists the group names.
- `POST /message` checks the user (403), then the group (404), then appends the encrypted record.
  The token in the body is never checked.
- `GET /messages/:group` answers 404 for an unknown group.
  Otherwise it decrypts every record in order, and one failing decryption makes the request fail with 500.
- `POST /delete-account` accepts any token that is some user's current token.
  It then removes the named user and that user's token, even when the named user is someone else.

Register, login and group creation report their failures with status 200.
`Rejected` names those failure replies together with the non-200 statuses.

Message encryption has its own layers:

- `Hex`: Node's hex writing and its pair-by-pair hex reading.
- `Envelope`: JavaScript's `split(':')`, the `hex(iv) + ':' + hex(ciphertext)` envelope, and opening it.
- `Cbc`: PKCS#7 padding and CBC chaining over an abstract 16-byte block cipher.
- `Cipher`: the server's `encrypt` and `decrypt`.

`decrypt` fails, as Node and OpenSSL make it throw, in these cases:

- the envelope has no `:`;
- the ciphertext hex has odd length (Node's input-encoding check);
- the IV is not 16 bytes;
- the ciphertext is empty or not a whole number of blocks;
- the padding is wrong.

Foreign pieces are parameters:

- bcrypt is a `Hasher` (a salted `hash` and a `compare`).
  The lemmas that need it assume it is `Sound`: a password matches every hash made from it.
- AES-256 under the process key is a `BlockCipher`.
  The lemmas that need it assume it is `Invertible`.
- The uuid token, the random IV and bcrypt salt, the clock's ISO timestamp and multer's file name are request arguments.

`Properties` puts the routes into one `Step` function. It proves:

- the invariants every request keeps;
- the register-then-login and send-then-read round trips;
- what deleting an account does to tokens.

The model follows the code as written:

- messages live inside the `groups` entries, and `messages.json` is never used;
- `POST /message` does not validate the token;
- deleting an account that does not exist still succeeds;
- a duplicate registration is answered with 200, not a conflict status.

## Model

| member | source | states |
|---|---|---|
| Hex.Encode | server.js:81-83 | hex output is two digits per byte and contains only hex digits, so never the ':' separator |
| Hex.Decode | server.js:88 | hex input decodes to at most one byte per digit pair, and to exactly one per pair when every character is a hex digit |
| Hex.DecodeEncode | server.js:83-92 | reading back hex that was written gives the original bytes |
| Envelope.Split | server.js:87 | `split(':')` yields at least one piece, no piece holds ':', joining the pieces with ':' gives the input back, and there is one piece exactly when the input has no ':' |
| Envelope.SplitTwo | server.js:83-89 | splitting `a:b` where neither side holds ':' gives exactly `[a, b]` |
| Envelope.Seal | server.js:83 | the envelope splits into exactly the IV hex and the ciphertext hex |
| Envelope.Open | server.js:87-89 | pieces 0 and 1 exist exactly when the envelope holds ':'; neither holds ':', together with ':' they start the envelope, and piece 1 runs to the end of the envelope or to the next ':', so it is the whole second piece |
| Envelope.OpenSeal | server.js:83-89 | opening a sealed envelope recovers both hex parts |
| Cbc.Pad | server.js:80-82 | PKCS#7 padding yields whole blocks, keeps the text as prefix and adds 1..16 bytes each equal to the count added |
| Cbc.Unpad | server.js:91-93 | accepted padding removes 1..16 bytes that each equal the count removed, leaving a prefix |
| Cbc.UnpadPad | server.js:80-93 | removing the padding that was added gives the text back |
| Cbc.PadUnpad | server.js:80-93 | whole-block text whose padding checks out is exactly the padding of what remains |
| Cbc.EncryptBlocks | server.js:80-82 | CBC chaining keeps the length |
| Cbc.DecryptBlocks | server.js:91-93 | CBC unchaining keeps the length |
| Cbc.DecryptEncryptBlocks | server.js:78-94 | with an invertible block cipher, CBC decryption under the same IV undoes CBC encryption |
| Cbc.Encrypt | server.js:80-82 | the ciphertext is whole blocks, longer than the text by 1 to 16 bytes |
| Cbc.Decrypt | server.js:88-93 | decryption succeeds exactly when the IV is 16 bytes, the ciphertext is whole blocks and its CBC decryption is a valid PKCS#7 padding of some text; the result is that text, so bad padding fails |
| Cbc.DecryptEncrypt | server.js:78-94 | padding plus CBC round-trips for every text under one IV and an invertible block cipher |
| Cipher.Encrypt | server.js:78-84 | the stored envelope splits on ':' into exactly the IV hex and the ciphertext hex, which fixes it as `hex(iv):hex(ct)` |
| Cipher.Decrypt | server.js:86-95 | a successful decrypt implies the envelope had ':', even-length ciphertext hex, a 16-byte IV and a non-empty whole-block ciphertext |
| Cipher.DecryptSeal | server.js:86-95 | on every envelope of the stored shape, decrypt is the decipher applied to its two parts, whatever key and IV produced them |
| Cipher.DecryptEncrypt | server.js:78-95 | `decrypt(encrypt(text))` is the text for every IV, under an invertible block cipher |
| Cipher.DistinctIvsDistinctEnvelopes | server.js:79-83 | two encryptions under different IVs never store the same envelope, whatever the texts |
| Chat.IsTokenValid | server.js:32-34 | a token is valid exactly when some user's current token equals it |
| Chat.AvatarOrDefault | server.js:209 | the stored avatar is the user's avatarUrl when it is non-empty, and exactly '/default-avatar.png' when it is null or "" |
| Chat.Register | server.js:98-112 | a taken name leaves the state alone with "Username already exists!"; otherwise exactly that key is added with the hash, description and avatar (a path under /uploads/ for an upload, never the default avatar, and null without one), other users, groups and tokens unchanged |
| Chat.Login | server.js:115-131 | unknown user or non-matching password issue nothing and change nothing; success sets only this user's token to the new one, which then passes `isTokenValid` |
| Chat.CreateGroup | server.js:134-148 | an existing name changes nothing; otherwise exactly that group is added with an empty list and nothing else changes |
| Chat.ListGroups | server.js:152-155 | the listed names are exactly the group keys, each once |
| Chat.SendMessage | server.js:190-221 | unknown user gives 403 before the group is checked, unknown group 404, both changing nothing; success appends exactly one record at the end of that group's list and changes nothing else |
| Chat.ShowAll | server.js:179-184 | mapping decrypt over the list (decrypt given as the callback) succeeds exactly when every record decrypts, and then keeps length and order, copying username, timestamp and avatar and decrypting each content |
| Chat.ReadMessages | server.js:171-187 | unknown group gives 404, an undecryptable record 500, otherwise 200 with the decrypted list |
| Chat.DeleteUserAccount | server.js:232-238 | exactly the user's record and token disappear; everything else stays |
| Chat.DeleteAccount | server.js:223-230 | a token held by nobody gives 401 and changes nothing; otherwise the named user and their token are removed and nothing else changes |
| Properties.Step | server.js:97-238 | every rejected request leaves the whole state unchanged |
| Properties.StepInvariants | server.js:97-238 | every request keeps each group and its earlier records, adds users only by registering that name, and keeps tokens held only by registered users |
| Properties.RegisterTwiceKeepsFirst | server.js:102-108 | registering a name twice fails the second time and keeps the first registration's record |
| Properties.RegisterThenLogin | server.js:106-127 | with a sound bcrypt, logging in with the registered password succeeds and its token is valid |
| Properties.SendIgnoresToken | server.js:191-220 | the outcome of a send does not depend on the token in the body |
| Properties.ShowEncrypted | server.js:179-184 | a record stored by a send is shown with exactly the text, sender, timestamp and avatar it was stored with |
| Properties.ShowAllAppend | server.js:179-184 | reading a list with one more decryptable record shows the previous messages followed by that one |
| Properties.SendThenRead | server.js:171-221 | after a send, a read shows the earlier messages followed by the new one, its content decrypted to the text sent |
| Properties.MessagesReadInSendOrder | server.js:171-221 | two sends into an empty group read back in sending order, with their timestamps |
| Properties.DeleteRevokesToken | server.js:223-238 | after a successful deletion the user is gone and their token, held by no one else, is no longer valid |
| Properties.AnyTokenDeletesAnyAccount | server.js:223-238 | one user's valid token deletes another user's account and leaves the caller's own token in place |
| Properties.DeleteAbsentIsNoOp | server.js:223-238 | deleting a name with no account and no token still reports success and changes nothing |
| Findings.RegisterAsWritten | server.js:98-112 | registration refuses every name for which `users[username]` is truthy, inherited members included |
| Findings.InheritedNameCannotRegister | server.js:102-103 | as written, "toString" is refused on an empty store while the corrected check accepts it |
| Findings.RegisterRefusesExactlyTakenNames | server.js:102-111 | the corrected check refuses a name exactly when an account with that name exists |
| Findings.AsWrittenAgreesOffInheritedNames | server.js:102 | as written and corrected registration agree on every name that is not an inherited member |
| Findings.SendMessageAsWritten | server.js:190-221 | with the lookups as written, an inherited sender name passes the 403 check and its record is appended; an inherited group name passes the 404 check and fails with 500, changing nothing |
| Findings.InheritedSenderIsAccepted | server.js:196-217 | as written, "toString" with no account posts into an existing group under that name, while the corrected send answers 403 and stores nothing |
| Findings.SendStoresOnlyAccountHolders | server.js:196-198 | the corrected send appends a record only when the sender has an account |

## Left out

- Express setup, middleware, static serving, the catch-all `GET *` route and `listen` (server.js:10-20, 241-243) are transport. The handlers are called directly.
- Multer avatar upload (server.js:37-47, 98) is file I/O. The upload is an optional file name.
- JSON file persistence (`initFiles`, `loadFile`, `saveFile`, server.js:49-75) is I/O. The stores are in-memory maps, and a save followed by a load is taken as the identity.
- bcrypt's hashing, uuid, `crypto.randomBytes` and the AES-256 block function are foreign code. They appear as the `Hasher` and `BlockCipher` parameters and as request arguments.
- The key is drawn once per process and never persisted. `State` holds no cipher: `SendMessage`, `ReadMessages` and `Step` each take the `BlockCipher` as an argument, so a write under one cipher followed by a read under another can be expressed. Reading records written under an earlier process's key then answers 500, or shows garbage if the padding happens to check out. Only the round-trip lemmas assume one cipher `c` throughout.
- UTF-8 conversion of message text is left out. Content is modelled as bytes. So the proved round trip is a byte round trip. It does not carry over to JavaScript strings holding lone surrogates: `cipher.update(text, 'utf8')` turns each into U+FFFD, and for such a string the server's `decrypt(encrypt(P))` differs from P.
- Dafny strings hold Unicode scalar values, while JavaScript strings are UTF-16 code units. So the model cannot represent names or envelopes holding lone surrogates. Its odd-length test on ciphertext hex counts characters where Node counts code units. The two agree on every envelope the server writes, since hex is ASCII.
- Request bodies with missing or non-string fields (which `bcrypt`, `cipher.update` or the lookups would turn into errors or the key "undefined") are not modelled.
- A rejected bcrypt promise in the async register and login handlers is not modelled. Express 4, which the bare `*` route at server.js:18 implies, does not catch it. The server registers no rejection handler, so on Node 15 and later the process exits; older Node leaves the request unanswered. Logging in as an inherited name such as "toString" reaches this path as written, because `users["toString"].password` is undefined and `bcrypt.compare` rejects.
- Interleaving of concurrent requests across the `await` in register and login is concurrency and out of scope.
- Chat.ListGroups: does not model the order of `Object.keys`, which puts integer-like names first. The names are given as a set without duplicates.
- Chat.Login, Chat.CreateGroup and Chat.ReadMessages use own-key membership. The inherited-name behaviour recorded under Findings also affects these lookups, but its as-written form is modelled only for registration and sending.
- Assigning a user or token under the name `__proto__` replaces the object's prototype in JavaScript. This is not modelled.
- GET /profile/:username (server.js:159-169) is a read-only projection outside the modelled core.
- The routes the frontends call but the server never defines (`/validate-token`, `DELETE /groups/:name`, `/edit-profile`) have no code to model. frontend.js and public/js/frontend.js are browser UI code.
- Timestamps are caller-supplied strings. That the clock never runs backwards is not modelled, so timestamp order is stated only as "as supplied".

## Findings

| source | as written | input that shows it | evidently intended | confidence | as-written member | corrected member |
|---|---|---|---|---|---|---|
| server.js:102 | `if (users[username])` is truthy for names inherited from `Object.prototype` | register "toString" on an empty store: answered "Username already exists!" though no such user exists | refuse only names that have an account | high, not executed | Findings.RegisterAsWritten | Chat.Register |
| server.js:196 | `if (!users[username])` lets names inherited from `Object.prototype` through | send as "toString" with no account into an existing group: answered "Message sent successfully." and a record is stored under "toString" | answer 403 unless the sender has an account | high, not executed | Findings.SendMessageAsWritten | Chat.SendMessage |
