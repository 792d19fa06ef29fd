/**
  * The UserRepository contract, modelled as an in-memory store: a map from id to user and the
  * next id to hand out. `Store` is the state as a value, with the seven operations as functions;
  * `InMemoryUserRepository` is the object whose save, update and delete change that state in place.
  */
module Repository {
  import opened Wrappers
  import opened Emails
  import opened Users
  import Strings

  /** The users stored under ids lo, lo + 1, ..., hi - 1, in ascending id order. */
  function Listing(users: map<int, User>, lo: int, hi: int): seq<User>
    decreases hi - lo
  {
    if lo >= hi then [] else (if lo in users then [users[lo]] else []) + Listing(users, lo + 1, hi)
  }

  ghost function KeysIn(users: map<int, User>, lo: int, hi: int): set<int> {
    set k | k in users && lo <= k < hi
  }

  /** The listing holds exactly the users stored under an id in the range. */
  lemma {:induction false} ListingMembers(users: map<int, User>, lo: int, hi: int, u: User)
    ensures u in Listing(users, lo, hi) <==> exists k :: lo <= k < hi && k in users && users[k] == u
    decreases hi - lo
  {
    if lo < hi {
      ListingMembers(users, lo + 1, hi, u);
      var head := if lo in users then [users[lo]] else [];
      assert Listing(users, lo, hi) == head + Listing(users, lo + 1, hi);
      if exists k :: lo <= k < hi && k in users && users[k] == u {
        var k :| lo <= k < hi && k in users && users[k] == u;
        if k == lo {
          assert u in head;
        }
      }
    }
  }

  /** The listing has one entry per stored id in the range. */
  lemma {:induction false} ListingLength(users: map<int, User>, lo: int, hi: int)
    ensures |Listing(users, lo, hi)| == |KeysIn(users, lo, hi)|
    decreases hi - lo
  {
    if lo >= hi {
      assert KeysIn(users, lo, hi) == {};
    } else {
      ListingLength(users, lo + 1, hi);
      if lo in users {
        assert KeysIn(users, lo, hi) == {lo} + KeysIn(users, lo + 1, hi);
      } else {
        assert KeysIn(users, lo, hi) == KeysIn(users, lo + 1, hi);
      }
    }
  }

  /** When every user carries its own key as id, the listing is in strictly ascending id order. */
  lemma {:induction false} ListingAscending(users: map<int, User>, lo: int, hi: int)
    requires forall k :: k in users ==> users[k].id == Some(k)
    ensures forall i :: 0 <= i < |Listing(users, lo, hi)| ==>
              Listing(users, lo, hi)[i].id.Some? && lo <= Listing(users, lo, hi)[i].id.value < hi
    ensures forall i, j :: 0 <= i < j < |Listing(users, lo, hi)| ==>
              Listing(users, lo, hi)[i].id.value < Listing(users, lo, hi)[j].id.value
    decreases hi - lo
  {
    if lo < hi {
      ListingAscending(users, lo + 1, hi);
    }
  }

  /** stream().filter(email matches).findFirst() */
  function FirstWithEmail(users: seq<User>, email: Email): (r: Option<User>)
    ensures r.Some? ==> r.value in users && r.value.email == email
    ensures r.None? ==> forall i :: 0 <= i < |users| ==> users[i].email != email
  {
    if users == [] then None
    else if users[0].email == email then Some(users[0])
    else FirstWithEmail(users[1..], email)
  }

  datatype Store = Store(users: map<int, User>, nextId: int) {
    /** Ids are positive and below the counter, each record carries its own id, and every record is a valid User. */
    ghost predicate Valid() {
      && 1 <= nextId
      && forall id :: id in users ==> 1 <= id < nextId && users[id].id == Some(id) && users[id].Valid()
    }

    /** No two stored users share an email. */
    ghost predicate EmailsUnique() {
      forall i, j :: i in users && j in users && users[i].email == users[j].email ==> i == j
    }

    /** Every stored user has a creation time. */
    ghost predicate AllStamped() {
      forall id :: id in users ==> users[id].createdAt.Some?
    }

    /** findById. A null id finds nothing here; the Spring Data implementation rejects it instead. */
    function FindById(id: Option<int>): Option<User> {
      if id.Some? && id.value in users then Some(users[id.value]) else None
    }

    /** findAll. The interface leaves the order open; this store lists by ascending id. */
    function FindAll(): seq<User> {
      Listing(users, 1, nextId)
    }

    /** findByEmail: the first stored user with that email. */
    function FindByEmail(email: Email): Option<User> {
      FirstWithEmail(FindAll(), email)
    }

    /** existsByEmail: some stored user has that email. */
    predicate ExistsByEmail(email: Email) {
      exists id :: id in users && users[id].email == email
    }

    /** save: stores the user under a fresh id with the given creation time and returns the stored user. */
    function Save(user: User, now: Timestamp): (User, Store) {
      var saved := user.(id := Some(nextId), createdAt := Some(now));
      (saved, Store(users[nextId := saved], nextId + 1))
    }

    /** update: replaces the record under the user's id; an id with no record is refused. */
    function Update(user: User): (Result<()>, Store) {
      if user.id.Some? && user.id.value in users then
        (Ok(()), Store(users[user.id.value := user], nextId))
      else
        (Err(IllegalArgument("User not found with ID: " + Strings.LongText(user.id))), this)
    }

    /** delete: removes the record under the id, if there is one. */
    function Delete(id: int): Store {
      Store(users - {id}, nextId)
    }
  }

  /** findAll returns exactly the stored users: a user is listed iff it is the record under its own id. */
  lemma FindAllIsExactlyStored(s: Store)
    requires s.Valid()
    ensures forall u :: u in s.FindAll() <==> u.id.Some? && s.FindById(u.id) == Some(u)
  {
    forall u ensures u in s.FindAll() <==> u.id.Some? && s.FindById(u.id) == Some(u) {
      ListingMembers(s.users, 1, s.nextId, u);
      if u.id.Some? && s.FindById(u.id) == Some(u) {
        var k := u.id.value;
        assert 1 <= k < s.nextId && k in s.users && s.users[k] == u;
      }
    }
  }

  /** findAll lists each stored user once, in ascending id order. */
  lemma FindAllIsOrderedById(s: Store)
    requires s.Valid()
    ensures |s.FindAll()| == |s.users|
    ensures forall i :: 0 <= i < |s.FindAll()| ==> s.FindAll()[i].id.Some?
    ensures forall i, j :: 0 <= i < j < |s.FindAll()| ==> s.FindAll()[i].id.value < s.FindAll()[j].id.value
  {
    ListingLength(s.users, 1, s.nextId);
    assert KeysIn(s.users, 1, s.nextId) == s.users.Keys;
    ListingAscending(s.users, 1, s.nextId);
  }

  /** existsByEmail(e) is findByEmail(e).isPresent(). */
  lemma ExistsIffFindByEmailPresent(s: Store, email: Email)
    requires s.Valid()
    ensures s.ExistsByEmail(email) <==> s.FindByEmail(email).Some?
  {
    var all := s.FindAll();
    if s.ExistsByEmail(email) {
      var id :| id in s.users && s.users[id].email == email;
      var u := s.users[id];
      ListingMembers(s.users, 1, s.nextId, u);
      assert 1 <= id < s.nextId;
      assert u in all;
      var i :| 0 <= i < |all| && all[i] == u;
      assert all[i].email == email;
    }
    if s.FindByEmail(email).Some? {
      var u := s.FindByEmail(email).value;
      assert u in all && u.email == email;
      ListingMembers(s.users, 1, s.nextId, u);
      var k :| 1 <= k < s.nextId && k in s.users && s.users[k] == u;
      assert s.users[k].email == email;
    }
  }

  /** With unique emails, findByEmail finds the one user holding the email. */
  lemma FindByEmailFindsOwner(s: Store, id: int)
    requires s.Valid() && s.EmailsUnique() && id in s.users
    ensures s.FindByEmail(s.users[id].email) == Some(s.users[id])
  {
    var email := s.users[id].email;
    ExistsIffFindByEmailPresent(s, email);
    FindAllIsExactlyStored(s);
    var found := s.FindByEmail(email).value;
    assert found in s.FindAll() && found.email == email;
    assert s.FindById(found.id) == Some(found);
    var k := found.id.value;
    assert k in s.users && s.users[k] == found;
    assert s.users[k].email == s.users[id].email;
  }

  /**
    * save hands out a fresh positive id: the stored user keeps the name, email and age it was given,
    * findById on the new id returns it, and every earlier record is untouched.
    */
  lemma SaveStoresUnderFreshId(s: Store, user: User, now: Timestamp)
    requires s.Valid() && user.Valid()
    ensures var (saved, t) := s.Save(user, now);
      && saved.id.Some? && saved.id.value >= 1 && saved.id.value !in s.users
      && saved.name == user.name && saved.email == user.email && saved.age == user.age
      && saved.createdAt == Some(now)
      && t.Valid()
      && t.FindById(saved.id) == Some(saved)
      && (forall k :: k in s.users ==> k in t.users && t.users[k] == s.users[k])
      && |t.users| == |s.users| + 1
  {
  }

  /** After save, an email is taken exactly when it was taken before or is the saved user's. */
  lemma SaveTakesOneEmail(s: Store, user: User, now: Timestamp, email: Email)
    requires s.Valid()
    ensures s.Save(user, now).1.ExistsByEmail(email) <==> s.ExistsByEmail(email) || email == user.email
  {
    var t := s.Save(user, now).1;
    if s.ExistsByEmail(email) {
      var id :| id in s.users && s.users[id].email == email;
      assert id in t.users && t.users[id].email == email;
    }
    if email == user.email {
      assert s.nextId in t.users && t.users[s.nextId].email == email;
    }
  }

  /** save keeps the emails unique when the email was free, and keeps every record stamped. */
  lemma SaveKeepsInvariants(s: Store, user: User, now: Timestamp)
    requires s.Valid()
    ensures s.EmailsUnique() && !s.ExistsByEmail(user.email) ==> s.Save(user, now).1.EmailsUnique()
    ensures s.AllStamped() ==> s.Save(user, now).1.AllStamped()
  {
  }

  /** update of a known id keeps the store valid. */
  lemma UpdateKeepsValid(s: Store, user: User)
    requires s.Valid() && user.Valid() && user.id.Some? && user.id.value in s.users
    ensures s.Update(user).1.Valid()
  {
    var t := s.Update(user).1;
    var id := user.id.value;
    assert t.users == s.users[id := user];
    forall k | k in t.users
      ensures 1 <= k < t.nextId && t.users[k].id == Some(k) && t.users[k].Valid()
    {
      if k != id {
        assert t.users[k] == s.users[k];
      }
    }
  }

  /** update of a known id keeps the number of records. */
  lemma UpdateKeepsCount(s: Store, user: User)
    requires user.id.Some? && user.id.value in s.users
    ensures |s.Update(user).1.users| == |s.users|
  {
    assert s.Update(user).1.users.Keys == s.users.Keys;
  }

  /** update of a known id stores the user under it and leaves every other id's record as it was. */
  lemma UpdateTouchesOneRecord(s: Store, user: User)
    requires user.id.Some? && user.id.value in s.users
    ensures s.Update(user).1.FindById(user.id) == Some(user)
    ensures forall k :: k != user.id.value ==> s.Update(user).1.FindById(Some(k)) == s.FindById(Some(k))
  {
  }

  /** update replaces the record under the user's id and leaves every other record as it was. */
  lemma UpdateReplacesRecord(s: Store, user: User)
    requires s.Valid() && user.Valid() && user.id.Some? && user.id.value in s.users
    ensures s.Update(user).0.Ok?
    ensures s.Update(user).1.Valid()
    ensures s.Update(user).1.FindById(user.id) == Some(user)
    ensures forall k :: k != user.id.value ==> s.Update(user).1.FindById(Some(k)) == s.FindById(Some(k))
    ensures |s.Update(user).1.users| == |s.users|
  {
    UpdateKeepsValid(s, user);
    UpdateKeepsCount(s, user);
    UpdateTouchesOneRecord(s, user);
  }

  /** Some record other than the one under `id` holds the email. */
  ghost predicate HeldByOther(s: Store, id: int, e: Email) {
    exists k :: k in s.users && k != id && s.users[k].email == e
  }

  /** One email other than the new one: taken after the update exactly when another record holds it. */
  lemma UpdateKeepsOtherEmail(s: Store, user: User, e: Email)
    requires user.id.Some? && user.id.value in s.users && e != user.email
    ensures s.Update(user).1.ExistsByEmail(e) <==> HeldByOther(s, user.id.value, e)
  {
    var t := s.Update(user).1;
    var id := user.id.value;
    if t.ExistsByEmail(e) {
      var k :| k in t.users && t.users[k].email == e;
      assert k != id && k in s.users && s.users[k] == t.users[k];
    }
    if HeldByOther(s, id, e) {
      var k :| k in s.users && k != id && s.users[k].email == e;
      assert k in t.users && t.users[k] == s.users[k];
    }
  }

  /**
    * After an update the new email is taken, and any other email is taken exactly when a record
    * other than the updated one holds it: the user's replaced email is freed unless someone else has it.
    */
  lemma UpdateMovesEmail(s: Store, user: User)
    requires user.id.Some? && user.id.value in s.users
    ensures s.Update(user).1.ExistsByEmail(user.email)
    ensures forall e :: e != user.email ==> (s.Update(user).1.ExistsByEmail(e) <==> HeldByOther(s, user.id.value, e))
  {
    var t := s.Update(user).1;
    var id := user.id.value;
    assert t.users == s.users[id := user];
    assert id in t.users && t.users[id].email == user.email;
    assert t.ExistsByEmail(user.email);
    forall e | e != user.email
      ensures t.ExistsByEmail(e) <==> HeldByOther(s, user.id.value, e)
    {
      UpdateKeepsOtherEmail(s, user, e);
    }
  }

  /** In a store with unique emails, an update that changes the user's email leaves the replaced one held by nobody. */
  lemma UpdateFreesReplacedEmail(s: Store, user: User)
    requires user.id.Some? && user.id.value in s.users && s.EmailsUnique()
    requires s.users[user.id.value].email != user.email
    ensures !s.Update(user).1.ExistsByEmail(s.users[user.id.value].email)
  {
    var id := user.id.value;
    UpdateKeepsOtherEmail(s, user, s.users[id].email);
  }

  /**
    * When no other record holds the new email, findByEmail on it finds the updated user afterwards,
    * and a replaced email of a store with unique emails finds nobody.
    */
  lemma UpdateFindsByNewEmail(s: Store, user: User)
    requires s.Valid() && user.Valid() && user.id.Some? && user.id.value in s.users
    requires s.EmailsUnique() && forall k :: k in s.users && s.users[k].email == user.email ==> Some(k) == user.id
    ensures s.Update(user).1.FindByEmail(user.email) == Some(user)
    ensures s.users[user.id.value].email != user.email ==> s.Update(user).1.FindByEmail(s.users[user.id.value].email).None?
  {
    var t := s.Update(user).1;
    var id := user.id.value;
    UpdateKeepsValid(s, user);
    UpdateKeepsInvariants(s, user);
    assert t.users[id] == user;
    FindByEmailFindsOwner(t, id);
    var oldEmail := s.users[id].email;
    if oldEmail != user.email {
      UpdateFreesReplacedEmail(s, user);
      ExistsIffFindByEmailPresent(t, oldEmail);
    }
  }

  /** update of a null or unknown id is refused with "User not found with ID: <id>" and changes nothing. */
  lemma UpdateOfUnknownIdFails(s: Store, user: User)
    requires user.id.None? || user.id.value !in s.users
    ensures s.Update(user) == (Err(IllegalArgument("User not found with ID: " + Strings.LongText(user.id))), s)
  {
  }

  /** update keeps the emails unique when no other record holds the new email, and keeps records stamped. */
  lemma UpdateKeepsInvariants(s: Store, user: User)
    ensures s.EmailsUnique() && (forall k :: k in s.users && s.users[k].email == user.email ==> Some(k) == user.id) ==>
              s.Update(user).1.EmailsUnique()
    ensures s.AllStamped() && user.createdAt.Some? ==> s.Update(user).1.AllStamped()
  {
    var t := s.Update(user).1;
    if user.id.Some? && user.id.value in s.users {
      var id := user.id.value;
      assert t.users == s.users[id := user];
      if s.EmailsUnique() && (forall k :: k in s.users && s.users[k].email == user.email ==> Some(k) == user.id) {
        forall i, j | i in t.users && j in t.users && t.users[i].email == t.users[j].email
          ensures i == j
        {
          if i != id && j != id {
            assert t.users[i] == s.users[i] && t.users[j] == s.users[j];
          }
        }
      }
    }
  }

  /**
    * delete removes that id only: findById on it is empty afterwards, every other record is unchanged,
    * the count drops by one when it was present, and deleting an absent id changes nothing.
    */
  lemma DeleteRemovesOnlyThatId(s: Store, id: int)
    ensures var t := s.Delete(id);
      && t.FindById(Some(id)).None?
      && (forall k :: k != id ==> t.FindById(Some(k)) == s.FindById(Some(k)))
      && (id in s.users ==> |t.users| == |s.users| - 1)
      && (id !in s.users ==> t == s)
  {
    var t := s.Delete(id);
    assert t.users.Keys == s.users.Keys - {id};
    if id !in s.users {
      assert s.users - {id} == s.users;
    }
  }

  /** delete keeps the store valid, its emails unique and its records stamped. */
  lemma DeleteKeepsInvariants(s: Store, id: int)
    requires s.Valid()
    ensures s.Delete(id).Valid()
    ensures s.EmailsUnique() ==> s.Delete(id).EmailsUnique()
    ensures s.AllStamped() ==> s.Delete(id).AllStamped()
  {
  }

  /** One call a use case makes on the repository. */
  datatype RepoCall =
    | FindByIdCall(id: Option<int>)
    | FindAllCall
    | FindByEmailCall(email: Email)
    | ExistsByEmailCall(email: Email)
    | SaveCall(user: User, now: Timestamp)
    | UpdateCall(user: User)
    | DeleteCall(deletedId: int)
  {
    predicate IsWrite() {
      SaveCall? || UpdateCall? || DeleteCall?
    }
  }

  /** The effect of one call on the store: only the three writes change it. */
  function Apply(s: Store, call: RepoCall): Store {
    match call
    case SaveCall(user, now) => s.Save(user, now).1
    case UpdateCall(user) => s.Update(user).1
    case DeleteCall(id) => s.Delete(id)
    case _ => s
  }

  /** The store after a sequence of calls. */
  function Replay(s: Store, calls: seq<RepoCall>): Store
    decreases |calls|
  {
    if calls == [] then s else Replay(Apply(s, calls[0]), calls[1..])
  }

  predicate ReadOnly(calls: seq<RepoCall>) {
    forall i :: 0 <= i < |calls| ==> !calls[i].IsWrite()
  }

  /** Calls that write nothing leave the store as it was. */
  lemma {:induction false} ReadOnlyCallsChangeNothing(s: Store, calls: seq<RepoCall>)
    requires ReadOnly(calls)
    ensures Replay(s, calls) == s
    decreases |calls|
  {
    if calls != [] {
      assert !calls[0].IsWrite();
      ReadOnlyCallsChangeNothing(s, calls[1..]);
    }
  }

  /** Replaying one call is applying it. */
  lemma ReplayOne(s: Store, c: RepoCall)
    ensures Replay(s, [c]) == Apply(s, c)
  {
    assert [c][1..] == [];
  }

  /** Replaying two calls applies them in order. */
  lemma ReplayTwo(s: Store, c: RepoCall, d: RepoCall)
    ensures Replay(s, [c, d]) == Apply(Apply(s, c), d)
  {
    assert [c, d][1..] == [d];
    ReplayOne(Apply(s, c), d);
  }

  /** Reads followed by one call have the effect of that call alone. */
  lemma {:induction false} ReplayReadsThen(s: Store, prefix: seq<RepoCall>, c: RepoCall)
    requires ReadOnly(prefix)
    ensures Replay(s, prefix + [c]) == Apply(s, c)
    decreases |prefix|
  {
    if prefix == [] {
      assert prefix + [c] == [c];
      ReplayOne(s, c);
    } else {
      assert !prefix[0].IsWrite();
      assert (prefix + [c])[1..] == prefix[1..] + [c];
      ReplayReadsThen(s, prefix[1..], c);
    }
  }

  /** What one use-case call did: its result, the repository calls it made in order, and the store afterwards. */
  datatype Execution<T> = Execution(result: Result<T>, calls: seq<RepoCall>, after: Store)

  /** The repository object: the store's state, updated in place by save, update and delete. */
  class InMemoryUserRepository {
    var users: map<int, User>
    var nextId: int

    function State(): Store
      reads this
    {
      Store(users, nextId)
    }

    ghost predicate Valid()
      reads this
    {
      State().Valid()
    }

    constructor ()
      ensures Valid() && State() == Store(map[], 1)
    {
      users := map[];
      nextId := 1;
    }

    function FindById(id: Option<int>): Option<User>
      reads this
    {
      State().FindById(id)
    }

    function FindAll(): seq<User>
      reads this
    {
      State().FindAll()
    }

    function FindByEmail(email: Email): Option<User>
      reads this
    {
      State().FindByEmail(email)
    }

    predicate ExistsByEmail(email: Email)
      reads this
    {
      State().ExistsByEmail(email)
    }

    method Save(user: User, now: Timestamp) returns (saved: User)
      requires Valid() && user.Valid()
      modifies this
      ensures Valid()
      ensures (saved, State()) == old(State()).Save(user, now)
    {
      SaveStoresUnderFreshId(State(), user, now);
      saved := user.(id := Some(nextId), createdAt := Some(now));
      users := users[nextId := saved];
      nextId := nextId + 1;
    }

    method Update(user: User) returns (r: Result<()>)
      requires Valid() && user.Valid()
      modifies this
      ensures Valid()
      ensures (r, State()) == old(State()).Update(user)
    {
      if user.id.Some? && user.id.value in users {
        ghost var after := State().Update(user).1;
        UpdateKeepsValid(State(), user);
        users := users[user.id.value := user];
        r := Ok(());
        assert State() == after;
      } else {
        r := Err(IllegalArgument("User not found with ID: " + Strings.LongText(user.id)));
      }
    }

    method Delete(id: int)
      requires Valid()
      modifies this
      ensures Valid()
      ensures State() == old(State()).Delete(id)
    {
      DeleteKeepsInvariants(State(), id);
      users := users - {id};
    }
  }
}
