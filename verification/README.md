# Password protocol of the car-values authentication service

This project models `AuthService` of the NestJS car-values application: the
signup and signin operations and the stored-secret format they share.

- **Signup** looks the email up in the user store and refuses with
  `BadRequest("Email <email> is already in use.")` if any record exists.
  Otherwise it draws 8 random salt bytes and hex-encodes them. It derives 32
  bytes with `scrypt(password, saltHex, 32)` and stores
  `saltHex + "." + hex(hash)` through `create`. It returns what `create` returned.
- **Signin** looks the email up and fails with `NotFound("Email <email> does not exist.")`
  when nothing is found. Otherwise it takes the first record and splits its
  stored password on `.` (JavaScript `split` with two-element destructuring).
  It re-derives the hash from the candidate and the salt part and compares hex
  strings. It returns the record, or fails with `BadRequest("Incorrect password.")`.

Modules, one per file:

- `Optional` (optional.dfy): `Option`, which stands for JavaScript's `undefined`.
- `Hex` (hex.dfy): `Buffer.toString('hex')` and its inverse.
- `Strings` (strings.dfy): `String.split` on one character, `Array.join`, first-index search.
- `Codec` (codec.dfy): the stored-secret format. `StoredSecret` builds it,
  `Unpack` is the split-and-destructure step, and `Verifies` is the match
  condition, defined independently by the positions of the first two separators.
- `Users` (users.dfy): the user record and a store class whose `records` sequence `create` appends to.
- `Auth` (auth.dfy): the `AuthService` class with `Signup` (changes the store)
  and `Signin` (reads it only), plus two client methods, `SignupThenSignin` and `SignupTwice`, stating the
  signup-then-signin and repeated-signup scenarios.

`scrypt` is a total, deterministic function value of type
`(string, string) -> KeyBytes`, fixed when the service is constructed.
`randomBytes(8)` is the `randomSalt` parameter of `Signup`.

The code never validates or hex-decodes a stored secret. Signin compares the
stored hash text with the freshly computed hex text, and a missing hash part
simply fails that comparison. The stored secret differs from every password
that does not have its own shape (81 characters with a `.` at index 16), in
particular from every password without a `.`. With `scrypt` left
uninterpreted, equality cannot be excluded for passwords of that shape
(`Codec.SecretIsNotPassword`).

## Model

| member | source | states |
|---|---|---|
| `Hex.Encode` | src/users/auth.service.ts:29 | hex text of n bytes has exactly 2n characters, all from `0-9a-f` (so never a `.`) |
| `Hex.Decode` | src/users/auth.service.ts:23 | reference inverse of the hex encoding (the code itself never decodes hex): accepts exactly the even-length strings of lower-case hex digits, giving half as many bytes; unlike Node's lenient `Buffer.from(s, 'hex')` it rejects anything else |
| `Hex.DecodeEncode` | src/users/auth.service.ts:23 | decoding the hex text of any buffer gives the buffer back |
| `Hex.EncodeDecode` | src/users/auth.service.ts:29 | every string decoding accepts is the hex text of the decoded bytes |
| `Hex.EncodeInjective` | src/users/auth.service.ts:50 | two buffers have the same hex text exactly when they are equal |
| `Strings.IndexOf` | src/users/auth.service.ts:48 | result is the position of the first occurrence, with none before it, or the length when absent |
| `Strings.Count` | src/users/auth.service.ts:48 | zero exactly when the character is absent; its exact value is stated by `Strings.CountIsMultiplicity` |
| `Strings.CountIsMultiplicity` | src/users/auth.service.ts:48 | the count is the multiplicity of the character in the string, i.e. its number of occurrences |
| `Strings.Split` | src/users/auth.service.ts:48 | `split` yields at least one part and no part contains the separator |
| `Strings.JoinSplit` | src/users/auth.service.ts:48 | joining the parts of a split with the separator gives back the original string |
| `Strings.SplitJoin` | src/users/auth.service.ts:29 | splitting the join of one or more separator-free parts gives back exactly those parts |
| `Strings.SplitWithoutSeparator` | src/users/auth.service.ts:48 | a string without the separator splits into itself alone |
| `Strings.SplitAfterPrefix` | src/users/auth.service.ts:48 | a separator after a separator-free prefix makes that prefix the first part, and the rest is split again |
| `Strings.SplitAtFirst` | src/users/auth.service.ts:48 | the first part ends at the first separator; with no separator the split is the whole string |
| `Strings.SplitCount` | src/users/auth.service.ts:48 | a split has exactly one part more than there are separators |
| `Codec.Combine` | src/users/auth.service.ts:29 | `salt + '.' + hash`: when neither part contains `.`, splitting the result gives back exactly `[salt, hash]`; its use in the stored secret is stated by `Codec.SecretWellFormed` |
| `Codec.Unpack` | src/users/auth.service.ts:48 | `const [salt, storedHash] = s.split('.')`: the salt part never contains `.`, the hash part is defined exactly when `s` contains a `.` and then contains no `.`; which text each part is, is stated by `Codec.UnpackFindsSeparators` |
| `Codec.Verifies` | src/users/auth.service.ts:48-50 | the match condition: the hash part equals the hex of scrypt(candidate, salt part). A matching secret contains a `.` and its hash part is 64 characters |
| `Codec.StoredSecret` | src/users/auth.service.ts:23-29 | the stored secret is always 81 characters long |
| `Codec.UnpackFindsSeparators` | src/users/auth.service.ts:48 | `[salt, storedHash] = s.split('.')` gives the text before the first `.`, and the text between the first and second `.` (undefined when there is no `.`) |
| `Codec.SecretWellFormed` | src/users/auth.service.ts:23-29 | the secret is 16 hex digits, one `.`, then 64 hex digits. It contains exactly one `.`, and splitting it gives exactly `[hex(salt), hex(hash)]` |
| `Codec.SecretIsNotPassword` | src/users/auth.service.ts:29 | the secret never equals a password whose length is not 81 or whose character at index 16 is not `.`; so never a password without a `.` (such as `asdf`) |
| `Codec.SecretDeterminesSalt` | src/users/auth.service.ts:23-29 | equal secrets come from the same salt bytes, whatever the passwords, so different salts always give different secrets |
| `Codec.SecretVerifies` | src/users/auth.service.ts:48-50 | the password a secret was made from always matches it |
| `Codec.SecretRejects` | src/users/auth.service.ts:48-50 | another candidate matches exactly when scrypt gives it the same 32 bytes under that salt |
| `Users.Matching` | src/users/auth.service.ts:17 | `find(email)` returns exactly the stored records with that email and never more records than are stored |
| `Users.UsersStore.Find` | src/users/auth.service.ts:17 | `find(email)`: every record returned is a stored record with that email, and the result is empty exactly when no stored record has that email |
| `Users.MatchingAppend` | src/users/auth.service.spec.ts:13-14 | appending a record adds it at the end of the lookups for its own email, and to no other email's lookup |
| `Users.UsersStore.constructor` | src/users/auth.service.spec.ts:12 | a new store holds no records |
| `Users.UsersStore.Create` | src/users/auth.service.spec.ts:13-14 | `create` appends exactly `{id, email, password}` and returns it. The id is the next number after the existing records |
| `Auth.AuthService.constructor` | src/users/auth.service.ts:14 | the service keeps the store and the key derivation it is given |
| `Auth.AuthService.Signup` | src/users/auth.service.ts:15-36 | if the email is in use: `BadRequest("Email <email> is already in use.")` for any password, store unchanged. Otherwise exactly one record is created with the email and `hex(salt) + "." + hex(scrypt(password, hex(salt)))`. That record is returned and becomes the only record for the email |
| `Auth.AuthService.Signin` | src/users/auth.service.ts:38-54 | no record: `NotFound("Email <email> does not exist.")`. Otherwise it returns the first record unchanged exactly when the text between its first two `.` equals hex(scrypt(candidate, text before the first `.`)), and fails with `BadRequest("Incorrect password.")` otherwise. A secret with no `.` always fails. The store is never written |
| `Auth.SignupThenSignin` | src/users/auth.service.ts:15-54 | signin right after signup for a fresh email returns the created record for the signup password. It returns the record for any other candidate exactly when scrypt cannot tell the candidate apart under that salt, and `BadRequest("Incorrect password.")` otherwise |
| `Auth.SignupTwice` | src/users/auth.service.ts:15-20 | a second signup for the same email fails with the in-use message, whatever the passwords, and adds no record |

## Left out

- src/main.ts (HTTP server, cookie sessions, validation pipe) is application wiring, not part of this model.
- Node's `crypto.scrypt` and `crypto.randomBytes` are foreign cryptographic calls. `scrypt` is an arbitrary deterministic function value and the random salt is a parameter. Memory-hardness and randomness quality are not expressed.
- `promisify` and the `async`/`await` plumbing are left out: the operations are sequential methods.
- NestJS dependency injection and the exception classes are left out. The store is passed to the constructor, and the exceptions are the `BadRequest`/`NotFound` cases of `Reply`.
- The real `UsersService` (a database repository) is not part of this model. `UsersStore` is an idealised store: `find` returns exactly the records with the queried email, and `create` appends the record and numbers records from 1.
- The idealised `find` never returns a record with another email, whereas the stub store in src/users/auth.service.spec.ts:55-58 returns a bob@bob.com record for any query. In the model the first record `Signin` consults always has the queried email, so a record with another email cannot reach `Signin`.
- `Users.UsersStore.Create` numbers records `1, 2, …`, whereas the stub store in src/users/auth.service.spec.ts:13-14 stores nothing and always answers with id 1.
- The timing of the `!==` comparison (not constant-time) cannot be expressed; only its functional result is modelled.
- Concurrent signups for the same email (check-then-create race) are outside the sequential model. `Signup`'s guarantee is relative to the store at the moment of its lookup.
