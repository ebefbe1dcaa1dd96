/**
 * The stored-secret format of the authentication service:
 * `hex(salt) + "." + hex(scrypt(password, hex(salt), 32))`, how sign-in takes
 * it apart again with `split('.')`, and what it means for a candidate password
 * to match it.
 */
module Codec {
  import opened Optional
  import Hex
  import opened Strings

  /** `randomBytes(8)`. */
  const SaltLength: nat := 8
  /** The key length passed to `scrypt`. */
  const KeyLength: nat := 32
  const Separator: char := '.'

  type SaltBytes = s: seq<Hex.byte> | |s| == SaltLength witness [0, 0, 0, 0, 0, 0, 0, 0]
  type KeyBytes = s: seq<Hex.byte> | |s| == KeyLength witness seq(32, _ => 0)

  /**
   * `scrypt(password, salt, 32)`: a deterministic derivation from the password
   * and the salt STRING (the hex text of the salt bytes) to 32 bytes.
   */
  type Kdf = (string, string) -> KeyBytes

  /** `salt + '.' + hash`. */
  function Combine(salt: string, hash: string): (secret: string)
    ensures Separator !in salt && Separator !in hash ==> Split(secret, Separator) == [salt, hash]
  {
    if Separator !in salt && Separator !in hash then
      SplitAfterPrefix(salt, Separator, hash);
      SplitWithoutSeparator(hash, Separator);
      salt + [Separator] + hash
    else
      salt + [Separator] + hash
  }

  /** The secret signup stores for `password` under the random salt `salt`. */
  function StoredSecret(password: string, salt: SaltBytes, scrypt: Kdf): (secret: string)
    ensures |secret| == 2 * SaltLength + 1 + 2 * KeyLength
  {
    var saltHex := Hex.Encode(salt);
    Combine(saltHex, Hex.Encode(scrypt(password, saltHex)))
  }

  /** `const [salt, storedHash] = stored.split('.')`; a missing second part is `undefined`. */
  function Unpack(stored: string): (pair: (string, Option<string>))
    ensures Separator !in pair.0
    ensures pair.1.Some? <==> Separator in stored
    ensures pair.1.Some? ==> Separator !in pair.1.value
  {
    var parts := Split(stored, Separator);
    SplitCount(stored, Separator);
    (parts[0], if |parts| >= 2 then Some(parts[1]) else None)
  }

  /** The text before the first separator. */
  function SaltPart(stored: string): string
  {
    stored[..IndexOf(stored, Separator)]
  }

  /** The text between the first and the second separator (or the end); `None` without a separator. */
  function HashPart(stored: string): Option<string>
  {
    var i := IndexOf(stored, Separator);
    if i == |stored| then None
    else
      var tail := stored[i + 1..];
      Some(tail[..IndexOf(tail, Separator)])
  }

  /** A candidate password matches a stored secret when re-deriving under its salt part gives its hash part. */
  predicate Verifies(stored: string, candidate: string, scrypt: Kdf)
    ensures Verifies(stored, candidate, scrypt) ==>
              Separator in stored && |HashPart(stored).value| == 2 * KeyLength
  {
    HashPart(stored) == Some(Hex.Encode(scrypt(candidate, SaltPart(stored))))
  }

  /** Destructuring the split takes the text before the first separator and the text between the first two. */
  lemma UnpackFindsSeparators(stored: string)
    ensures Unpack(stored) == (SaltPart(stored), HashPart(stored))
  {
    var i := IndexOf(stored, Separator);
    SplitAtFirst(stored, Separator);
    if i < |stored| {
      var tail := stored[i + 1..];
      SplitAtFirst(tail, Separator);
      assert Split(tail, Separator)[0] == tail[..IndexOf(tail, Separator)];
    } else {
      assert stored[..i] == stored;
    }
  }

  /**
   * The stored secret is 16 hex digits, one separator, 64 hex digits, and
   * splitting it gives back exactly the salt text and the hash text.
   */
  lemma SecretWellFormed(password: string, salt: SaltBytes, scrypt: Kdf)
    ensures var secret := StoredSecret(password, salt, scrypt);
            var saltHex := Hex.Encode(salt);
            var hashHex := Hex.Encode(scrypt(password, saltHex));
            && |saltHex| == 2 * SaltLength && |hashHex| == 2 * KeyLength
            && secret[2 * SaltLength] == Separator
            && (forall i :: 0 <= i < |secret| && i != 2 * SaltLength ==> Hex.IsHexDigit(secret[i]))
            && Count(secret, Separator) == 1
            && Split(secret, Separator) == [saltHex, hashHex]
            && SaltPart(secret) == saltHex
            && HashPart(secret) == Some(hashHex)
  {
    var secret := StoredSecret(password, salt, scrypt);
    var saltHex := Hex.Encode(salt);
    var hashHex := Hex.Encode(scrypt(password, saltHex));
    assert secret == Combine(saltHex, hashHex);
    assert forall i :: 0 <= i < |hashHex| ==> secret[2 * SaltLength + 1 + i] == hashHex[i];
    assert Separator !in saltHex && Separator !in hashHex;
    assert Split(secret, Separator) == [saltHex, hashHex];
    SplitCount(secret, Separator);
    assert Unpack(secret) == (saltHex, Some(hashHex));
    UnpackFindsSeparators(secret);
  }

  /**
   * The secret can never be a password that lacks its shape: one whose length
   * is not 81, or whose character at index 16 is not the separator (so every
   * password without a separator, such as `asdf`).
   */
  lemma SecretIsNotPassword(password: string, salt: SaltBytes, scrypt: Kdf)
    requires |password| != 2 * SaltLength + 1 + 2 * KeyLength || password[2 * SaltLength] != Separator
    ensures StoredSecret(password, salt, scrypt) != password
  {
    SecretWellFormed(password, salt, scrypt);
  }

  /** Two secrets that are equal were made with the same salt. */
  lemma SecretDeterminesSalt(p1: string, s1: SaltBytes, p2: string, s2: SaltBytes, scrypt: Kdf)
    requires StoredSecret(p1, s1, scrypt) == StoredSecret(p2, s2, scrypt)
    ensures s1 == s2
  {
    SecretWellFormed(p1, s1, scrypt);
    SecretWellFormed(p2, s2, scrypt);
    Hex.EncodeInjective(s1, s2);
  }

  /** The password a secret was made from verifies against it. */
  lemma SecretVerifies(password: string, salt: SaltBytes, scrypt: Kdf)
    ensures Verifies(StoredSecret(password, salt, scrypt), password, scrypt)
  {
    SecretWellFormed(password, salt, scrypt);
  }

  /** Another password verifies exactly when the derivation cannot tell it from the original under this salt. */
  lemma SecretRejects(password: string, salt: SaltBytes, candidate: string, scrypt: Kdf)
    ensures var saltHex := Hex.Encode(salt);
            (Verifies(StoredSecret(password, salt, scrypt), candidate, scrypt)
             <==> scrypt(candidate, saltHex) == scrypt(password, saltHex))
  {
    var saltHex := Hex.Encode(salt);
    SecretWellFormed(password, salt, scrypt);
    Hex.EncodeInjective(scrypt(candidate, saltHex), scrypt(password, saltHex));
  }
}
