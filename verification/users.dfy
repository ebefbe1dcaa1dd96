/**
 * The user store the authentication service talks to: `find(email)` returns
 * every record with that email, `create(email, password)` stores a new record
 * and returns it with a store-assigned id.
 */
module Users {

  datatype User = User(id: nat, email: string, password: string)

  /** The records with the given email, in store order. */
  function Matching(records: seq<User>, email: string): (found: seq<User>)
    ensures |found| <= |records|
    ensures forall u :: u in found <==> u in records && u.email == email
  {
    if records == [] then []
    else
      assert records == [records[0]] + records[1..];
      (if records[0].email == email then [records[0]] else []) + Matching(records[1..], email)
  }

  /** Appending a record adds it to the lookups of its own email and to no other. */
  lemma {:induction false} MatchingAppend(records: seq<User>, user: User, email: string)
    ensures Matching(records + [user], email)
         == Matching(records, email) + (if user.email == email then [user] else [])
  {
    if records != [] {
      assert (records + [user])[1..] == records[1..] + [user];
      MatchingAppend(records[1..], user, email);
    }
  }

  class UsersStore {
    var records: seq<User>

    constructor ()
      ensures records == []
    {
      records := [];
    }

    /** `find(email)`. */
    function Find(email: string): (found: seq<User>)
      reads this
      ensures forall u :: u in found ==> u in records && u.email == email
      ensures found == [] <==> forall u :: u in records ==> u.email != email
    {
      var found := Matching(records, email);
      assert found != [] ==> found[0] in found;
      found
    }

    /** `create(email, password)`: appends the record and returns it; ids count up from 1. */
    method Create(email: string, password: string) returns (user: User)
      modifies this
      ensures user == User(|old(records)| + 1, email, password)
      ensures records == old(records) + [user]
    {
      user := User(|records| + 1, email, password);
      records := records + [user];
    }
  }
}
