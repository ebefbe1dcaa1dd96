/**
 * The authentication service: signup refuses an email that is already in use
 * and otherwise stores a salted, hashed secret; signin looks the email up and
 * checks the candidate password against the first record's secret.
 */
module Auth {
  import opened Optional
  import Hex
  import opened Codec
  import opened Users

  /** What a call returns: the user record, or one of the two exceptions with its message. */
  datatype Reply = Returned(user: User) | BadRequest(message: string) | NotFound(message: string)

  function InUse(email: string): string { "Email " + email + " is already in use." }
  function DoesNotExist(email: string): string { "Email " + email + " does not exist." }
  const IncorrectPassword: string := "Incorrect password."

  class AuthService {
    const users: UsersStore
    /** Node's `scrypt`, fixed for the lifetime of the service. */
    const scrypt: Kdf

    constructor (users: UsersStore, scrypt: Kdf)
      ensures this.users == users && this.scrypt == scrypt
    {
      this.users := users;
      this.scrypt := scrypt;
    }

    /**
     * `signup(email, password)`, with `randomSalt` standing for `randomBytes(8)`.
     * An email already in use is refused and the store is left alone; otherwise
     * exactly one record is created and returned, and it is then the only
     * record for that email.
     */
    method Signup(email: string, password: string, randomSalt: SaltBytes) returns (r: Reply)
      modifies users
      ensures old(users.Find(email)) != [] ==>
                r == BadRequest(InUse(email)) && users.records == old(users.records)
      ensures old(users.Find(email)) == [] ==>
                && r == Returned(User(|old(users.records)| + 1, email, StoredSecret(password, randomSalt, scrypt)))
                && users.records == old(users.records) + [r.user]
                && users.Find(email) == [r.user]
    {
      var existing := users.Find(email);
      if |existing| > 0 {
        return BadRequest(InUse(email));
      }
      var salt := Hex.Encode(randomSalt);
      var hash := scrypt(password, salt);
      var result := Combine(salt, Hex.Encode(hash));
      var user := users.Create(email, result);
      MatchingAppend(old(users.records), user, email);
      return Returned(user);
    }

    /**
     * `signin(email, password)`. Only the first record found is consulted; it
     * is returned unchanged exactly when the candidate verifies against its
     * secret. A secret without a separator never verifies. Nothing is stored.
     */
    method Signin(email: string, password: string) returns (r: Reply)
      ensures users.Find(email) == [] ==> r == NotFound(DoesNotExist(email))
      ensures users.Find(email) != [] ==>
                var user := users.Find(email)[0];
                && (r == Returned(user) <==> Verifies(user.password, password, scrypt))
                && (r != Returned(user) ==> r == BadRequest(IncorrectPassword))
      ensures users.Find(email) != [] && Separator !in users.Find(email)[0].password ==>
                r == BadRequest(IncorrectPassword)
    {
      var found := users.Find(email);
      if found == [] {
        return NotFound(DoesNotExist(email));
      }
      var user := found[0];
      var (salt, storedHash) := Unpack(user.password);
      var hash := scrypt(password, salt);
      UnpackFindsSeparators(user.password);
      if storedHash != Some(Hex.Encode(hash)) {
        return BadRequest(IncorrectPassword);
      }
      return Returned(user);
    }
  }

  /**
   * Signup for a fresh email followed by signin with a candidate password:
   * signin returns the created record when the derivation cannot tell the
   * candidate from the signup password, and refuses it otherwise; in
   * particular the signup password itself is always accepted.
   */
  method SignupThenSignin(auth: AuthService, email: string, password: string, candidate: string, salt: SaltBytes)
    returns (created: Reply, signedIn: Reply)
    requires auth.users.Find(email) == []
    modifies auth.users
    ensures created.Returned? && created.user.email == email
    ensures var saltHex := Hex.Encode(salt);
            signedIn == if auth.scrypt(candidate, saltHex) == auth.scrypt(password, saltHex)
                        then created else BadRequest(IncorrectPassword)
  {
    created := auth.Signup(email, password, salt);
    SecretRejects(password, salt, candidate, auth.scrypt);
    signedIn := auth.Signin(email, candidate);
  }

  /** A second signup for the same email is refused, whatever the passwords, and adds no record. */
  method SignupTwice(auth: AuthService, email: string, first: string, second: string, s1: SaltBytes, s2: SaltBytes)
    returns (created: Reply, again: Reply)
    requires auth.users.Find(email) == []
    modifies auth.users
    ensures created.Returned?
    ensures again == BadRequest(InUse(email))
    ensures auth.users.records == old(auth.users.records) + [created.user]
  {
    created := auth.Signup(email, first, s1);
    again := auth.Signup(email, second, s2);
  }
}
