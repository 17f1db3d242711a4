/** The user store: `SQLite3UserController` over the user table. Lookups are
    functions of the table; creating, updating and deleting users are
    methods on the shared database. */
module UserStore {
  import opened Common
  import opened Schema
  import ImageStore

  /** The record the controller hands back for a row of the user table. */
  datatype CompleteUser = CompleteUser(id: int, username: string, email: string, password: string, userType: string)

  function ToCompleteUser(row: UserRow): CompleteUser
  {
    CompleteUser(row.id, row.username, row.email, row.password, row.userType)
  }

  /** The column and value `_get_user_by_attrib` compares with `=`. */
  datatype Lookup = ById(id: int) | ByUsername(username: string) | ByEmail(email: string)

  predicate Matches(row: UserRow, key: Lookup)
  {
    match key
    case ById(id) => row.id == id
    case ByUsername(name) => row.username == name
    case ByEmail(email) => row.email == email
  }

  /** `_get_user_by_attrib`: the record of a row whose column equals the value
      exactly (SQLite's default, case-sensitive comparison), or nothing. */
  function FindUser(users: seq<UserRow>, key: Lookup): (r: Option<CompleteUser>)
    ensures r.None? <==> forall i :: 0 <= i < |users| ==> !Matches(users[i], key)
    ensures r.Some? ==> exists i :: 0 <= i < |users| && Matches(users[i], key) && r.value == ToCompleteUser(users[i])
  {
    if users == [] then None
    else if Matches(users[0], key) then Some(ToCompleteUser(users[0]))
    else FindUser(users[1..], key)
  }

  /** On a valid table a lookup finds THE matching row: the looked-up columns
      are the primary key and the two UNIQUE columns. */
  lemma FindUserUnique(users: seq<UserRow>, userSeq: int, key: Lookup, k: nat)
    requires UserTableValid(users, userSeq)
    requires k < |users| && Matches(users[k], key)
    ensures FindUser(users, key) == Some(ToCompleteUser(users[k]))
  {
    var i :| 0 <= i < |users| && Matches(users[i], key) && FindUser(users, key).value == ToCompleteUser(users[i]);
    if i != k {
      var (lo, hi) := if i < k then (i, k) else (k, i);
      match key
      case ById(_) => assert UserIdOf(users[lo]) != UserIdOf(users[hi]);
      case ByUsername(_) => assert UsernameOf(users[lo]) != UsernameOf(users[hi]);
      case ByEmail(_) => assert EmailOf(users[lo]) != EmailOf(users[hi]);
    }
  }

  /** `get_user_by_username`: the lookup on the lower-cased name. */
  function GetUserByUsername(users: seq<UserRow>, username: string): (r: Option<CompleteUser>)
    ensures r.Some? ==> r.value.username == Lower(username)
    ensures r.None? <==> forall i :: 0 <= i < |users| ==> users[i].username != Lower(username)
  {
    FindUser(users, ByUsername(Lower(username)))
  }

  /** `get_user_by_id`: the lookup on the id, as given. */
  function GetUserById(users: seq<UserRow>, userId: int): (r: Option<CompleteUser>)
    ensures r.Some? ==> r.value.id == userId
    ensures r.None? <==> !HasUser(users, userId)
  {
    FindUser(users, ById(userId))
  }

  /** `get_user_by_email`: the lookup on the lower-cased email. */
  function GetUserByEmail(users: seq<UserRow>, email: string): (r: Option<CompleteUser>)
    ensures r.Some? ==> r.value.email == Lower(email)
    ensures r.None? <==> forall i :: 0 <= i < |users| ==> users[i].email != Lower(email)
  {
    FindUser(users, ByEmail(Lower(email)))
  }

  /** `get_all_users`: one record per row, in table order. */
  function AllUsers(users: seq<UserRow>): (r: seq<CompleteUser>)
    ensures |r| == |users|
  {
    seq(|users|, i requires 0 <= i < |users| => ToCompleteUser(users[i]))
  }

  /** The listing and the lookup by id agree: a record is listed exactly
      when looking up its id returns it. */
  lemma AllUsersAgreesWithLookup(users: seq<UserRow>, userSeq: int, u: CompleteUser)
    requires UserTableValid(users, userSeq)
    ensures u in AllUsers(users) <==> GetUserById(users, u.id) == Some(u)
  {
    var all := AllUsers(users);
    if u in all {
      var k :| 0 <= k < |all| && all[k] == u;
      FindUserUnique(users, userSeq, ById(u.id), k);
    }
    if GetUserById(users, u.id) == Some(u) {
      var k :| 0 <= k < |users| && Matches(users[k], ById(u.id)) && u == ToCompleteUser(users[k]);
      assert all[k] == u;
    }
  }

  /** The row `_create_user_impl` inserts: username, email and type
      lower-cased, the (already hashed) password as given. */
  function NewUserRow(id: int, username: string, email: string, password: string, userType: string): UserRow
  {
    UserRow(id, Lower(username), Lower(email), password, Lower(userType))
  }

  /** The INSERT would break UNIQUE(user_username) or UNIQUE(user_email). */
  predicate CreateConflicts(users: seq<UserRow>, username: string, email: string)
  {
    exists i :: 0 <= i < |users| && (users[i].username == Lower(username) || users[i].email == Lower(email))
  }

  /** A second registration whose username or email differs from an
      earlier one only in letter case is refused. */
  lemma RegisterAgainConflicts(users: seq<UserRow>, row: UserRow, username: string, email: string)
    requires row.username == Lower(username) || row.email == Lower(email)
    ensures CreateConflicts(users + [row], username, email)
  {
    assert (users + [row])[|users|] == row;
  }

  /** A created user is found by username and by email whatever the case
      of the query, and by its id. */
  lemma {:induction false} CreatedUserIsFound(users: seq<UserRow>, userSeq: int, id: int,
                                              username: string, email: string, password: string, userType: string,
                                              qName: string, qEmail: string)
    requires UserTableValid(users + [NewUserRow(id, username, email, password, userType)], userSeq)
    requires Lower(qName) == Lower(username) && Lower(qEmail) == Lower(email)
    ensures var created := ToCompleteUser(NewUserRow(id, username, email, password, userType));
      && GetUserByUsername(users + [NewUserRow(id, username, email, password, userType)], qName) == Some(created)
      && GetUserByEmail(users + [NewUserRow(id, username, email, password, userType)], qEmail) == Some(created)
      && GetUserById(users + [NewUserRow(id, username, email, password, userType)], id) == Some(created)
  {
    var all := users + [NewUserRow(id, username, email, password, userType)];
    var k := |users|;
    FindUserUnique(all, userSeq, ByUsername(Lower(qName)), k);
    FindUserUnique(all, userSeq, ByEmail(Lower(qEmail)), k);
    FindUserUnique(all, userSeq, ById(id), k);
  }

  /** The columns `update_user` accepts. */
  datatype Column = Username | Email | Password | Type

  /** The allow-list: the four column names `update_user` accepts. */
  function ColumnNamed(name: string): (r: Option<Column>)
    ensures r.Some? <==> name in {"user_username", "user_email", "user_password", "user_type"}
  {
    if name == "user_username" then Some(Username)
    else if name == "user_email" then Some(Email)
    else if name == "user_password" then Some(Password)
    else if name == "user_type" then Some(Type)
    else None
  }

  function ColumnValue(row: UserRow, c: Column): string
  {
    match c
    case Username => row.username
    case Email => row.email
    case Password => row.password
    case Type => row.userType
  }

  function SetColumn(row: UserRow, c: Column, value: string): UserRow
  {
    match c
    case Username => row.(username := value)
    case Email => row.(email := value)
    case Password => row.(password := value)
    case Type => row.(userType := value)
  }

  /** `UPDATE ... SET <column> = ? WHERE user_id = ?`. */
  function SetWhereId(users: seq<UserRow>, userId: int, c: Column, value: string): seq<UserRow>
  {
    seq(|users|, i requires 0 <= i < |users| =>
      if users[i].id == userId then SetColumn(users[i], c, value) else users[i])
  }

  /** Every key of the attribute dictionary is on the allow-list. */
  predicate KeysAllowed(attributes: seq<(string, string)>)
  {
    forall i :: 0 <= i < |attributes| ==> ColumnNamed(attributes[i].0).Some?
  }

  function Columns(attributes: seq<(string, string)>): (r: seq<(Column, string)>)
    requires KeysAllowed(attributes)
    ensures |r| == |attributes|
  {
    seq(|attributes|, i requires 0 <= i < |attributes| => (ColumnNamed(attributes[i].0).value, attributes[i].1))
  }

  /** Where `update_user` stops: the table it leaves, how many attributes it
      committed, and the error it raised, if any. */
  datatype Applied = Applied(users: seq<UserRow>, done: nat, error: Option<Error>)

  function Shift(a: Applied, n: nat): Applied
  {
    Applied(a.users, a.done + n, a.error)
  }

  /** The attributes applied one UPDATE at a time, each committed before the
      next: a UNIQUE violation raises DBError and an UPDATE that matched no
      row raises InvalidData, both keeping what was committed before. */
  function ApplyAttributes(users: seq<UserRow>, userId: int, attrs: seq<(Column, string)>): Applied
    decreases |attrs|
  {
    if attrs == [] then Applied(users, 0, None)
    else
      var updated := SetWhereId(users, userId, attrs[0].0, attrs[0].1);
      if !UserColumnsUnique(updated) then Applied(users, 0, Some(DBError))
      else if !HasUser(users, userId) then Applied(users, 0, Some(InvalidData))
      else Shift(ApplyAttributes(updated, userId, attrs[1..]), 1)
  }

  /** The table after the given attributes, each applied as an UPDATE. */
  function SetAll(users: seq<UserRow>, userId: int, attrs: seq<(Column, string)>): seq<UserRow>
    decreases |attrs|
  {
    if attrs == [] then users
    else SetAll(SetWhereId(users, userId, attrs[0].0, attrs[0].1), userId, attrs[1..])
  }

  /** Exactly the attributes before the failing one stay applied, and all
      of them when nothing was raised. */
  lemma {:induction false} ApplyCommitsPrefix(users: seq<UserRow>, userId: int, attrs: seq<(Column, string)>)
    ensures ApplyAttributes(users, userId, attrs).done <= |attrs|
    ensures ApplyAttributes(users, userId, attrs).error.None? ==> ApplyAttributes(users, userId, attrs).done == |attrs|
    ensures ApplyAttributes(users, userId, attrs).users == SetAll(users, userId, attrs[..ApplyAttributes(users, userId, attrs).done])
    decreases |attrs|
  {
    if attrs != [] {
      var updated := SetWhereId(users, userId, attrs[0].0, attrs[0].1);
      if UserColumnsUnique(updated) && HasUser(users, userId) {
        ApplyCommitsPrefix(updated, userId, attrs[1..]);
        var d := ApplyAttributes(updated, userId, attrs[1..]).done;
        assert attrs[..d + 1][1..] == attrs[1..][..d];
      }
    }
  }

  /** One accepted UPDATE keeps the user table valid, changes no id and no
      row of another user, stores the value as given, and leaves the other
      columns of the updated row as they were. */
  lemma SetWhereIdEffect(users: seq<UserRow>, userSeq: int, userId: int, c: Column, value: string)
    requires UserTableValid(users, userSeq)
    requires UserColumnsUnique(SetWhereId(users, userId, c, value))
    ensures UserTableValid(SetWhereId(users, userId, c, value), userSeq)
    ensures |SetWhereId(users, userId, c, value)| == |users|
    ensures forall i :: 0 <= i < |users| ==> SetWhereId(users, userId, c, value)[i].id == users[i].id
    ensures forall i :: 0 <= i < |users| && users[i].id != userId ==> SetWhereId(users, userId, c, value)[i] == users[i]
    ensures forall i :: 0 <= i < |users| && users[i].id == userId ==> ColumnValue(SetWhereId(users, userId, c, value)[i], c) == value
    ensures forall i, d :: 0 <= i < |users| && d != c ==> ColumnValue(SetWhereId(users, userId, c, value)[i], d) == ColumnValue(users[i], d)
  {
    SameKeysKeepDistinct(users, SetWhereId(users, userId, c, value), UserIdOf, UserIdOf);
  }

  /** SQLite accepts `SET <column> = value` on the row of an existing user
      exactly when the column is not UNIQUE or no other row already holds
      the value. */
  lemma UpdateConflictIff(users: seq<UserRow>, userSeq: int, userId: int, c: Column, value: string, k: nat)
    requires UserTableValid(users, userSeq)
    requires k < |users| && users[k].id == userId
    ensures UserColumnsUnique(SetWhereId(users, userId, c, value)) <==>
      (c == Password || c == Type || forall j :: 0 <= j < |users| && j != k ==> ColumnValue(users[j], c) != value)
  {
    var r := SetWhereId(users, userId, c, value);
    forall i | 0 <= i < |users| && i != k ensures r[i] == users[i] {
      if i < k {
        assert UserIdOf(users[i]) != UserIdOf(users[k]);
      } else {
        assert UserIdOf(users[k]) != UserIdOf(users[i]);
      }
    }
    if c != Username {
      SameKeysKeepDistinct(users, r, UsernameOf, UsernameOf);
    }
    if c != Email {
      SameKeysKeepDistinct(users, r, EmailOf, EmailOf);
    }
    if c == Username {
      if forall j :: 0 <= j < |users| && j != k ==> users[j].username != value {
        forall i, j | 0 <= i < j < |r| ensures UsernameOf(r[i]) != UsernameOf(r[j]) {
          if i != k && j != k {
            assert UsernameOf(users[i]) != UsernameOf(users[j]);
          }
        }
      } else {
        var j :| 0 <= j < |users| && j != k && users[j].username == value;
        if j < k {
          assert UsernameOf(r[j]) == UsernameOf(r[k]);
        } else {
          assert UsernameOf(r[k]) == UsernameOf(r[j]);
        }
      }
    }
    if c == Email {
      if forall j :: 0 <= j < |users| && j != k ==> users[j].email != value {
        forall i, j | 0 <= i < j < |r| ensures EmailOf(r[i]) != EmailOf(r[j]) {
          if i != k && j != k {
            assert EmailOf(users[i]) != EmailOf(users[j]);
          }
        }
      } else {
        var j :| 0 <= j < |users| && j != k && users[j].email == value;
        if j < k {
          assert EmailOf(r[j]) == EmailOf(r[k]);
        } else {
          assert EmailOf(r[k]) == EmailOf(r[j]);
        }
      }
    }
  }

  /** Why `update_user` stops: InvalidData exactly when the user has no row
      (and there is an attribute to apply); DBError exactly when the user
      exists and the UPDATE for the attribute at `done` would give another
      row's username or email, which only an attribute setting one of those
      two columns can do. */
  lemma {:induction false} ApplyErrorCause(users: seq<UserRow>, userSeq: int, userId: int, attrs: seq<(Column, string)>)
    requires UserTableValid(users, userSeq)
    ensures ApplyAttributes(users, userId, attrs).error == Some(InvalidData) <==> !HasUser(users, userId) && attrs != []
    ensures var a := ApplyAttributes(users, userId, attrs);
      a.error == Some(DBError) <==>
        && a.done < |attrs|
        && HasUser(users, userId)
        && !UserColumnsUnique(SetWhereId(a.users, userId, attrs[a.done].0, attrs[a.done].1))
    ensures ApplyAttributes(users, userId, attrs).error == Some(DBError) ==>
      && ApplyAttributes(users, userId, attrs).done < |attrs|
      && attrs[ApplyAttributes(users, userId, attrs).done].0 in {Username, Email}
    decreases |attrs|
  {
    if attrs != [] {
      var (c, value) := attrs[0];
      var updated := SetWhereId(users, userId, c, value);
      if !HasUser(users, userId) {
        assert updated == users;
      } else {
        var k :| 0 <= k < |users| && users[k].id == userId;
        UpdateConflictIff(users, userSeq, userId, c, value, k);
        if UserColumnsUnique(updated) {
          SetWhereIdEffect(users, userSeq, userId, c, value);
          assert updated[k].id == userId;
          ApplyErrorCause(updated, userSeq, userId, attrs[1..]);
          var a := ApplyAttributes(updated, userId, attrs[1..]);
          if a.done < |attrs[1..]| {
            assert attrs[a.done + 1] == attrs[1..][a.done];
          }
        }
      }
    }
  }

  /** Whatever `update_user` raises, the table stays valid, no id changes
      and no other user's row changes. */
  lemma {:induction false} ApplyKeepsValid(users: seq<UserRow>, userSeq: int, userId: int, attrs: seq<(Column, string)>)
    requires UserTableValid(users, userSeq)
    ensures UserTableValid(ApplyAttributes(users, userId, attrs).users, userSeq)
    ensures |ApplyAttributes(users, userId, attrs).users| == |users|
    ensures forall i :: 0 <= i < |users| ==> ApplyAttributes(users, userId, attrs).users[i].id == users[i].id
    ensures forall i :: 0 <= i < |users| && users[i].id != userId ==> ApplyAttributes(users, userId, attrs).users[i] == users[i]
    decreases |attrs|
  {
    if attrs != [] {
      var updated := SetWhereId(users, userId, attrs[0].0, attrs[0].1);
      if UserColumnsUnique(updated) && HasUser(users, userId) {
        SetWhereIdEffect(users, userSeq, userId, attrs[0].0, attrs[0].1);
        ApplyKeepsValid(updated, userSeq, userId, attrs[1..]);
      }
    }
  }

  /** Updating an id with no row raises InvalidData at the first attribute
      and changes nothing. */
  lemma ApplyToMissingUser(users: seq<UserRow>, userSeq: int, userId: int, attrs: seq<(Column, string)>)
    requires UserTableValid(users, userSeq)
    requires !HasUser(users, userId) && attrs != []
    ensures ApplyAttributes(users, userId, attrs) == Applied(users, 0, Some(InvalidData))
  {
    var updated := SetWhereId(users, userId, attrs[0].0, attrs[0].1);
    assert updated == users;
  }

  /** Values are stored as given, not lower-cased: a user renamed to a
      name with an upper-case letter is no longer found under that name. */
  lemma RenamedMixedCaseIsNotFound(users: seq<UserRow>, userSeq: int, userId: int, name: string, k: nat)
    requires UserTableValid(users, userSeq)
    requires k < |users| && users[k].id == userId
    requires ApplyAttributes(users, userId, [(Username, name)]).error.None?
    requires Lower(name) != name
    ensures |ApplyAttributes(users, userId, [(Username, name)]).users| == |users|
    ensures ApplyAttributes(users, userId, [(Username, name)]).users[k].username == name
    ensures GetUserByUsername(ApplyAttributes(users, userId, [(Username, name)]).users, name)
            != Some(ToCompleteUser(ApplyAttributes(users, userId, [(Username, name)]).users[k]))
  {
    var updated := SetWhereId(users, userId, Username, name);
    SetWhereIdEffect(users, userSeq, userId, Username, name);
    assert ApplyAttributes(users, userId, [(Username, name)]).users == updated;
  }

  /** The image rows the ON DELETE CASCADE keeps. */
  function NotOwnedBy(userId: int): ImageRow -> bool
  {
    (r: ImageRow) => r.userId != userId
  }

  /** Deleting a user, with the cascade into the image table, keeps every
      constraint of both tables. */
  lemma DeleteUserKeepsValid(users: seq<UserRow>, images: seq<ImageRow>, userSeq: int, imageSeq: int, userId: int)
    requires UserTableValid(users, userSeq) && ImageTableValid(images, imageSeq) && ForeignKeysHold(images, users)
    ensures UserTableValid(Filter(users, Except(UserIdOf, userId)), userSeq)
    ensures ImageTableValid(Filter(images, NotOwnedBy(userId)), imageSeq)
    ensures ForeignKeysHold(Filter(images, NotOwnedBy(userId)), Filter(users, Except(UserIdOf, userId)))
  {
    var us := Filter(users, Except(UserIdOf, userId));
    var ims := Filter(images, NotOwnedBy(userId));
    FilterKeepsDistinct(users, Except(UserIdOf, userId), UserIdOf);
    FilterKeepsDistinct(users, Except(UserIdOf, userId), UsernameOf);
    FilterKeepsDistinct(users, Except(UserIdOf, userId), EmailOf);
    FilterMembers(users, Except(UserIdOf, userId));
    FilterMembers(images, NotOwnedBy(userId));
    forall i | 0 <= i < |us| ensures 1 <= us[i].id <= userSeq {
      assert us[i] in users;
    }
    ImageStore.DeleteImageKeepsValid(images, users, imageSeq, NotOwnedBy(userId));
    forall i | 0 <= i < |ims| ensures HasUser(us, ims[i].userId) {
      assert ims[i] in images;
      var m :| 0 <= m < |images| && images[m] == ims[i];
      var j :| 0 <= j < |users| && users[j].id == ims[i].userId;
      assert users[j] in us;
    }
  }

  /** Deleting by id removes the one row with that id, or changes nothing
      when there is no such row. */
  lemma DeleteUserEffect(users: seq<UserRow>, userId: int)
    requires DistinctBy(users, UserIdOf)
    ensures !HasUser(users, userId) ==> Filter(users, Except(UserIdOf, userId)) == users
    ensures forall k :: 0 <= k < |users| && users[k].id == userId ==>
      Filter(users, Except(UserIdOf, userId)) == users[..k] + users[k + 1..]
  {
    FilterOutKey(users, UserIdOf, userId);
  }

  /** The controller: each method runs its statements on one connection. */
  class UserController {
    const db: Database

    constructor (db: Database)
      ensures this.db == db
    {
      this.db := db;
    }

    /** `_create_user_impl`: inserts the lower-cased row under the next id
        and returns its record; a taken username or email raises
        InvalidData and leaves the table and the id counter unchanged. */
    method CreateUser(username: string, email: string, password: string, userType: string)
      returns (r: Result<CompleteUser>)
      requires db.Valid()
      modifies db`users, db`userSeq
      ensures db.Valid()
      ensures r.Raised? <==> CreateConflicts(old(db.users), username, email)
      ensures r.Raised? ==> r.error == InvalidData && db.users == old(db.users) && db.userSeq == old(db.userSeq)
      ensures r.Ok? ==>
        && db.userSeq == old(db.userSeq) + 1
        && (forall i :: 0 <= i < |old(db.users)| ==> old(db.users)[i].id < db.userSeq)
        && db.users == old(db.users) + [NewUserRow(db.userSeq, username, email, password, userType)]
        && r.value == CompleteUser(db.userSeq, Lower(username), Lower(email), password, Lower(userType))
    {
      if CreateConflicts(db.users, username, email) {
        r := Raised(InvalidData);
      } else {
        var id := db.userSeq + 1;
        var row := NewUserRow(id, username, email, password, userType);
        AppendKeepsDistinct(db.users, row, UserIdOf);
        AppendKeepsDistinct(db.users, row, UsernameOf);
        AppendKeepsDistinct(db.users, row, EmailOf);
        ghost var before := db.users;
        db.users := db.users + [row];
        db.userSeq := id;
        forall i | 0 <= i < |db.images| ensures HasUser(db.users, db.images[i].userId) {
          assert HasUser(before, db.images[i].userId);
          var j :| 0 <= j < |before| && before[j].id == db.images[i].userId;
          assert db.users[j] == before[j];
        }
        r := Ok(ToCompleteUser(row));
      }
    }

    /** `update_user`: refuses any key off the allow-list with DBError before
        touching the table; otherwise applies the attributes in order, one
        committed UPDATE each, as `ApplyAttributes` describes. */
    method UpdateUser(userId: int, attributes: seq<(string, string)>) returns (r: Result<()>)
      requires db.Valid()
      modifies db`users
      ensures db.Valid()
      ensures !KeysAllowed(attributes) ==> r == Raised(DBError) && db.users == old(db.users)
      ensures KeysAllowed(attributes) ==>
        var a := ApplyAttributes(old(db.users), userId, Columns(attributes));
        && db.users == a.users
        && (r.Ok? <==> a.error.None?)
        && (r.Raised? ==> r.error == a.error.value)
    {
      if !KeysAllowed(attributes) {
        return Raised(DBError);
      }
      ghost var cols := Columns(attributes);
      var i := 0;
      while i < |attributes|
        invariant 0 <= i <= |attributes|
        invariant db.Valid()
        invariant ApplyAttributes(old(db.users), userId, cols) == Shift(ApplyAttributes(db.users, userId, cols[i..]), i)
      {
        var c := ColumnNamed(attributes[i].0).value;
        var value := attributes[i].1;
        assert cols[i..][0] == (c, value);
        assert cols[i..][1..] == cols[i + 1..];
        var updated := SetWhereId(db.users, userId, c, value);
        if !UserColumnsUnique(updated) {
          // sqlite3.IntegrityError, re-raised as DBError
          return Raised(DBError);
        }
        if !HasUser(db.users, userId) {
          // rowcount == 0
          return Raised(InvalidData);
        }
        SetWhereIdEffect(db.users, db.userSeq, userId, c, value);
        ghost var before := db.users;
        db.users := updated;
        forall k | 0 <= k < |db.images| ensures HasUser(db.users, db.images[k].userId) {
          assert HasUser(before, db.images[k].userId);
          var j :| 0 <= j < |before| && before[j].id == db.images[k].userId;
          assert db.users[j].id == before[j].id;
        }
        i := i + 1;
      }
      r := Ok(());
    }

    /** `delete_user`: removes the row with that id (a missing id is a
        no-op); the foreign key's ON DELETE CASCADE removes the user's
        images with it. */
    method DeleteUser(userId: int)
      requires db.Valid()
      modifies db`users, db`images
      ensures db.Valid()
      ensures db.users == Filter(old(db.users), Except(UserIdOf, userId))
      ensures !HasUser(old(db.users), userId) ==> db.users == old(db.users)
      ensures forall k :: 0 <= k < |old(db.users)| && old(db.users)[k].id == userId ==>
        db.users == old(db.users)[..k] + old(db.users)[k + 1..]
      ensures db.images == Filter(old(db.images), NotOwnedBy(userId))
      ensures forall x :: x in db.images <==> x in old(db.images) && x.userId != userId
    {
      DeleteUserEffect(db.users, userId);
      DeleteUserKeepsValid(db.users, db.images, db.userSeq, db.imageSeq, userId);
      FilterMembers(db.images, NotOwnedBy(userId));
      db.users := Filter(db.users, Except(UserIdOf, userId));
      db.images := Filter(db.images, NotOwnedBy(userId));
    }
  }
}
