/**
  Signup, login, the profile read and the rename (the user controller).

  The express-validator chains that run before signup and rename are not part
  of this model: their outcome arrives as the list of messages they produced.
  bcrypt arrives the same way: the hash of the new password as a value, and the
  comparison of a password with a stored hash as a predicate. The signed token
  is a value too.
 */
module UserController {
  import opened JsValues
  import opened Entities
  import opened Envelope
  import opened Repository
  import opened ValidUtils
  import opened CourseController

  function UserWithEmail(email: string): User -> bool {
    (u: User) => u.email == email
  }

  /** `{id, name: oldName}`: the rename only applies while the name is still the one read. */
  function UserWithIdAndName(id: Id, oldName: string): User -> bool {
    (u: User) => u.id == id && u.name == oldName
  }

  function Rename(name: string): User -> User {
    (u: User) => u.(name := name)
  }

  /** Row `k` is the first row with key `id`, the one a lookup by key returns. */
  ghost predicate FirstWithId(users: seq<User>, k: int, id: Id) {
    IsFirst(users, UserWithId(id), k)
  }

  ghost predicate FirstWithEmail(users: seq<User>, k: int, email: string) {
    IsFirst(users, UserWithEmail(email), k)
  }

  /** A lookup by email that finds a row finds the first row with that email. */
  lemma EmailFound(users: seq<User>, email: string)
    requires FindFirst(users, UserWithEmail(email)).Some?
    ensures exists k :: FirstWithEmail(users, k, email)
  {
    var k :| IsFirst(users, UserWithEmail(email), k) && users[k] == FindFirst(users, UserWithEmail(email)).value;
    assert FirstWithEmail(users, k, email);
  }

  function UserEmails(rows: seq<User>): seq<string> { Keys(rows, (r: User) => r.email) }

  // ---------------------------------------------------------------------------
  // postUser: signup
  // ---------------------------------------------------------------------------

  function PostUser(st: Store, errors: seq<string>, name: string, email: string, passwordHash: string): (r: Handled)
    ensures !r.response.Fault?
    ensures r.response.Failed? ==> r.store == st
    ensures |errors| > 0 <==> r.response.Failed? && r.response.code == 400
    ensures |errors| > 0 ==> r.response == ValidationFailure(errors)
    ensures r.response.Failed? ==> r.response == ValidationFailure(errors) || r.response == Failed(409, MsgEmailTaken)
    ensures r.response == Failed(409, MsgEmailTaken) <==>
      |errors| == 0 && exists k :: 0 <= k < |st.users| && st.users[k].email == email
    ensures r.response.Success? ==>
      && r.response.code == 201 && r.response.data.SignedUp?
      && r.response.data.userName == name
      && r.store == st.(users := st.users + [User(r.response.data.userId, name, email, passwordHash, USER)])
      && (forall k :: 0 <= k < |st.users| ==> st.users[k].id != r.response.data.userId && st.users[k].email != email)
      && NonBlankString(Str(r.response.data.userId))
  {
    if |errors| > 0 then
      Handled(ValidationFailure(errors), st)
    else if FindFirst(st.users, UserWithEmail(email)).Some? then
      Handled(Failed(409, MsgEmailTaken), st)
    else
      var newUser := User(FreshId(UserIds(st.users)), name, email, passwordHash, USER);
      Handled(Success(201, SignedUp(newUser.id, newUser.name)), st.(users := st.users + [newUser]))
  }

  /** A signup, successful or not, keeps emails and keys unique. */
  lemma SignupKeepsUnique(st: Store, errors: seq<string>, name: string, email: string, passwordHash: string)
    requires Distinct(UserEmails(st.users)) && Distinct(UserIds(st.users))
    ensures var after := PostUser(st, errors, name, email, passwordHash).store;
      Distinct(UserEmails(after.users)) && Distinct(UserIds(after.users))
  {
    var r := PostUser(st, errors, name, email, passwordHash);
    if r.response.Success? {
      var us := r.store.users;
      forall i, j | 0 <= i < j < |us| ensures UserEmails(us)[i] != UserEmails(us)[j] && UserIds(us)[i] != UserIds(us)[j] {
        if j < |st.users| {
          assert UserEmails(us)[i] == UserEmails(st.users)[i] && UserEmails(us)[j] == UserEmails(st.users)[j];
          assert UserIds(us)[i] == UserIds(st.users)[i] && UserIds(us)[j] == UserIds(st.users)[j];
        }
      }
    }
  }

  // ---------------------------------------------------------------------------
  // postUserLogin
  // ---------------------------------------------------------------------------

  /**
    `matches(password, hash)` is bcrypt's comparison. The password is the
    request body's field as sent: bcrypt refuses anything but a string and
    throws. An unknown email and a wrong string password get the very same
    reply; only a non-string password on a registered email throws instead.
   */
  function PostUserLogin(st: Store, email: string, password: JsValue, matches: (string, string) -> bool, token: string): (r: Handled)
    ensures r.store == st
    ensures r.response.Fault? <==> (exists k :: FirstWithEmail(st.users, k, email)) && !password.Str?
    ensures r.response.Failed? ==> r.response == Failed(400, MsgLoginFailed)
    ensures r.response.Failed? <==>
      || (forall k :: 0 <= k < |st.users| ==> st.users[k].email != email)
      || (exists k :: FirstWithEmail(st.users, k, email) && password.Str? && !matches(password.s, st.users[k].password))
    ensures r.response.Success? ==>
      && r.response.code == 200 && password.Str?
      && exists k :: FirstWithEmail(st.users, k, email) && matches(password.s, st.users[k].password)
           && r.response.data == LoggedIn(token, st.users[k].name)
  {
    var findUser := FindFirst(st.users, UserWithEmail(email));
    if findUser.None? then
      Handled(Failed(400, MsgLoginFailed), st)
    else if !password.Str? then
      EmailFound(st.users, email);
      Handled(Fault, st)
    else if !matches(password.s, findUser.value.password) then
      Handled(Failed(400, MsgLoginFailed), st)
    else
      Handled(Success(200, LoggedIn(token, findUser.value.name)), st)
  }

  // ---------------------------------------------------------------------------
  // getUser
  // ---------------------------------------------------------------------------

  /** The caller's name and email; a missing row gives `{User: null}`, still a 200. */
  function GetUser(st: Store, callerId: Id): (r: Handled)
    ensures r.store == st && !r.response.Fault?
    ensures r.response.Failed? <==> !NonBlankString(Str(callerId))
    ensures r.response.Failed? ==> r.response == Failed(400, MsgFieldsNotFilled)
    ensures r.response.Success? ==>
      && r.response.code == 200 && r.response.data.Account?
      && (r.response.data.contact.None? <==> forall k :: 0 <= k < |st.users| ==> st.users[k].id != callerId)
      && (r.response.data.contact.Some? ==>
            exists k :: FirstWithId(st.users, k, callerId)
              && r.response.data.contact.value == Contact(st.users[k].name, st.users[k].email))
  {
    if IsInvalidString(Str(callerId)) then
      Handled(Failed(400, MsgFieldsNotFilled), st)
    else
      var user := FindFirst(st.users, UserWithId(callerId));
      Handled(Success(200, Account(if user.Some? then Some(Contact(user.value.name, user.value.email)) else None)), st)
  }

  // ---------------------------------------------------------------------------
  // putUser: rename
  // ---------------------------------------------------------------------------

  /** The users after renaming row-by-row the caller's rows that still carry `oldName`. */
  ghost predicate RenamedFrom(users: seq<User>, users': seq<User>, callerId: Id, oldName: string, name: string) {
    && |users'| == |users|
    && forall k :: 0 <= k < |users| ==>
         users'[k] == if users[k].id == callerId && users[k].name == oldName then users[k].(name := name) else users[k]
  }

  /**
    The checks run in this order: the new name must be a non-blank string;
    the caller's row is read (a missing row makes `findUser.name` throw); the
    name must differ from the stored one; only then do the validator messages
    count. The update is conditional on the name read.
   */
  function PutUser(st: Store, callerId: Id, name: JsValue, errors: seq<string>): (r: Handled)
    ensures r.response.Failed? ==> r.store == st && r.response.code == 400
    ensures !NonBlankString(name) ==> r.response == Failed(400, MsgFieldsNotFilled)
    ensures r.response.Fault? <==> NonBlankString(name) && forall k :: 0 <= k < |st.users| ==> st.users[k].id != callerId
    ensures r.response.Fault? ==> r.store == st
    ensures forall k :: FirstWithId(st.users, k, callerId) && NonBlankString(name) ==>
      && (st.users[k].name == name.s ==> r.response == Failed(400, MsgNameUnchanged))
      && (st.users[k].name != name.s && |errors| > 0 ==> r.response == ValidationFailure(errors))
      && (st.users[k].name != name.s && |errors| == 0 ==>
            && r.response == Success(200, Profile(name.s))
            && r.store == st.(users := r.store.users)
            && RenamedFrom(st.users, r.store.users, callerId, st.users[k].name, name.s))
  {
    if IsInvalidString(name) then
      Handled(Failed(400, MsgFieldsNotFilled), st)
    else
      var findUser := FindFirst(st.users, UserWithId(callerId));
      if findUser.None? then
        Handled(Fault, st)
      else
        RenameFound(st, callerId, findUser.value.name, name.s, errors)
  }

  /** What `putUser` does once the caller's row has been read and found to carry `oldName`. */
  function RenameFound(st: Store, callerId: Id, oldName: string, name: string, errors: seq<string>): (r: Handled)
    requires exists k :: FirstWithId(st.users, k, callerId) && st.users[k].name == oldName
    ensures r.response.Failed? ==> r.store == st && r.response.code == 400
    ensures !r.response.Fault?
    ensures oldName == name ==> r.response == Failed(400, MsgNameUnchanged)
    ensures oldName != name && |errors| > 0 ==> r.response == ValidationFailure(errors)
    ensures oldName != name && |errors| == 0 ==>
      && r.response == Success(200, Profile(name))
      && r.store == st.(users := r.store.users)
      && RenamedFrom(st.users, r.store.users, callerId, oldName, name)
  {
    if oldName == name then
      Handled(Failed(400, MsgNameUnchanged), st)
    else if |errors| > 0 then
      Handled(ValidationFailure(errors), st)
    else
      var updatedResult := UpdateWhere(st.users, UserWithIdAndName(callerId, oldName), Rename(name));
      if updatedResult.1 == 0 then
        Handled(Failed(400, MsgUpdateProfileFailed), st)
      else
        var st' := st.(users := updatedResult.0);
        RereadAfterRename(st.users, callerId, oldName, name);
        var result := FindFirst(st'.users, UserWithId(callerId));
        if result.None? then Handled(Fault, st)
        else Handled(Success(200, Profile(result.value.name)), st')
  }

  /** After the conditional rename, reading the caller's row back gives the new name. */
  lemma RereadAfterRename(users: seq<User>, callerId: Id, oldName: string, name: string)
    requires exists k :: FirstWithId(users, k, callerId) && users[k].name == oldName
    ensures var after := UpdateWhere(users, UserWithIdAndName(callerId, oldName), Rename(name)).0;
      var found := FindFirst(after, UserWithId(callerId));
      found.Some? && found.value.name == name
  {
    var k :| FirstWithId(users, k, callerId) && users[k].name == oldName;
    var after := UpdateWhere(users, UserWithIdAndName(callerId, oldName), Rename(name)).0;
    assert FirstWithId(after, k, callerId) && after[k].name == name;
  }

  /** Right after signing up, reading the profile with the new key shows the name and email just given. */
  lemma SignedUpReadable(st: Store, errors: seq<string>, name: string, email: string, passwordHash: string)
    requires PostUser(st, errors, name, email, passwordHash).response.Success?
    ensures var r := PostUser(st, errors, name, email, passwordHash);
      GetUser(r.store, r.response.data.userId).response == Success(200, Account(Some(Contact(name, email))))
  {
    var r := PostUser(st, errors, name, email, passwordHash);
    var id, n := r.response.data.userId, |st.users|;
    assert r.store.users[n].id == id;
    forall j | 0 <= j < n ensures !UserWithId(id)(r.store.users[j]) {
      assert r.store.users[j] == st.users[j];
    }
    assert FirstWithId(r.store.users, n, id);
    var read := GetUser(r.store, id);
    var k :| FirstWithId(r.store.users, k, id) && read.response.data.contact.value == Contact(r.store.users[k].name, r.store.users[k].email);
    FirstIsUnique(r.store.users, UserWithId(id), k, n);
  }

  /** Right after signing up, logging in with that email and a password matching the stored hash succeeds and greets the new name. */
  lemma LoginAfterSignup(st: Store, name: string, email: string, password: string, passwordHash: string,
                         matches: (string, string) -> bool, token: string)
    requires matches(password, passwordHash)
    requires PostUser(st, [], name, email, passwordHash).response.Success?
    ensures var after := PostUser(st, [], name, email, passwordHash).store;
      PostUserLogin(after, email, Str(password), matches, token).response == Success(200, LoggedIn(token, name))
  {
    var after := PostUser(st, [], name, email, passwordHash).store;
    var n := |st.users|;
    forall j | 0 <= j < n ensures after.users[j].email != email {
      assert after.users[j] == st.users[j];
    }
    assert FirstWithEmail(after.users, n, email);
  }

  /** A rename changes names only: keys, emails, passwords and roles stay as they were. */
  lemma RenameKeepsAccounts(st: Store, callerId: Id, name: JsValue, errors: seq<string>)
    ensures var after := PutUser(st, callerId, name, errors).store;
      && UserIds(after.users) == UserIds(st.users)
      && UserEmails(after.users) == UserEmails(st.users)
      && |after.users| == |st.users|
      && forall k :: 0 <= k < |st.users| ==>
           after.users[k] == st.users[k].(name := after.users[k].name)
  {
    var r := PutUser(st, callerId, name, errors);
    if r.response.Success? {
      var k :| FirstWithId(st.users, k, callerId);
      RenamedFromKeeps(st.users, r.store.users, callerId, st.users[k].name, name.s);
    }
  }

  lemma RenamedFromKeeps(users: seq<User>, users': seq<User>, callerId: Id, oldName: string, name: string)
    requires RenamedFrom(users, users', callerId, oldName, name)
    ensures UserIds(users') == UserIds(users) && UserEmails(users') == UserEmails(users)
    ensures |users'| == |users| && forall k :: 0 <= k < |users| ==> users'[k] == users[k].(name := users'[k].name)
  {
    assert UserIds(users') == UserIds(users);
    assert UserEmails(users') == UserEmails(users);
  }

  /** Renaming to the name just set is refused as unchanged, and changes nothing. */
  lemma RenameTwiceRejected(st: Store, callerId: Id, name: string, errors: seq<string>)
    requires PutUser(st, callerId, Str(name), []).response.Success?
    ensures var after := PutUser(st, callerId, Str(name), []).store;
      PutUser(after, callerId, Str(name), errors) == Handled(Failed(400, MsgNameUnchanged), after)
  {
    var findUser := FindFirst(st.users, UserWithId(callerId));
    RereadAfterRename(st.users, callerId, findUser.value.name, name);
  }
}
