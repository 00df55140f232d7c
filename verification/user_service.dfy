/**
 * `UserService.java`: the non-blank check on registration data, user
 * creation on top of `registerUser`, and the contact-details update.
 * A Java `null` argument is `None`.
 */
module UserService {
  import opened Wrappers
  import opened JavaInt
  import opened JavaText
  import opened People
  import opened Store
  import opened Retry
  import Database

  /** `isValidUserData`: each of the five fields passes `isNotEmpty`. */
  predicate IsValidUserData(username: Option<string>, password: Option<string>, email: Option<string>,
                            phoneNumber: Option<string>, userId: Option<string>) {
    IsNotBlank(username) && IsNotBlank(password) && IsNotBlank(email) && IsNotBlank(phoneNumber) && IsNotBlank(userId)
  }

  /** The data is valid exactly when no field is null and none trims to the empty string. */
  lemma IsValidUserDataMeans(username: Option<string>, password: Option<string>, email: Option<string>,
                             phoneNumber: Option<string>, userId: Option<string>)
    ensures IsValidUserData(username, password, email, phoneNumber, userId) <==>
              && username.Some? && password.Some? && email.Some? && phoneNumber.Some? && userId.Some?
              && |Trim(username.value)| > 0 && |Trim(password.value)| > 0 && |Trim(email.value)| > 0
              && |Trim(phoneNumber.value)| > 0 && |Trim(userId.value)| > 0
  {
    IsNotBlankMeans(username);
    IsNotBlankMeans(password);
    IsNotBlankMeans(email);
    IsNotBlankMeans(phoneNumber);
    IsNotBlankMeans(userId);
  }

  /**
   * `createUser`: invalid data is refused before the database is reached;
   * otherwise `registerUser` runs and a positive generated id (narrowed to
   * `int`) becomes a `User` with the given fields and role. The codes -1,
   * -2 and -3 all become `null`.
   */
  function CreateUser(s: Store, username: Option<string>, password: Option<string>, email: Option<string>,
                      phoneNumber: Option<string>, userId: Option<string>, role: Option<string>, env: Environment)
    : (r: (Store, Option<User>))
    requires MAX_RETRIES <= |env|
    ensures !IsValidUserData(username, password, email, phoneNumber, userId) ==> r == (s, None)
    ensures r.1.Some? <==> && IsValidUserData(username, password, email, phoneNumber, userId)
                           && RunWithRetry(env).Some? && role.Some?
                           && !Database.UsernameTaken(s, username.value) && !Database.UserIdTaken(s, userId.value)
                           && s.nextUserId > 0
    ensures r.1.Some? ==>
              r.1.value == User(Wrap32(s.nextUserId), username.value, password.value, email.value, phoneNumber.value,
                                userId.value, role.value)
    ensures r.1.Some? ==>
              r.0.users == s.users[s.nextUserId := UserRow(username.value, password.value, email.value, phoneNumber.value,
                                                           userId.value, role.value)]
    ensures r.1.None? && s.nextUserId > 0 ==> r.0 == s
  {
    if !IsValidUserData(username, password, email, phoneNumber, userId) then (s, None)
    else
      var (t, code) := Database.RegisterUser(s, username.value, password.value, email.value, phoneNumber.value,
                                             userId.value, role, env);
      if code > 0 then
        (t, Some(User(Wrap32(code), username.value, password.value, email.value, phoneNumber.value, userId.value, role.value)))
      else (t, None)
  }

  /**
   * A user just created reads back by username as the object `createUser`
   * returned, when its id fits in an `int`, except that the role is the one
   * the lookup's subclass carries. For the three roles the program offers
   * the read-back is the very object returned.
   */
  lemma CreatedUserReadsBack(s: Store, username: Option<string>, password: Option<string>, email: Option<string>,
                             phoneNumber: Option<string>, userId: Option<string>, role: Option<string>, env: Environment)
    requires MAX_RETRIES <= |env|
    requires CreateUser(s, username, password, email, phoneNumber, userId, role, env).1.Some?
    requires InRange(s.nextUserId)
    ensures var r := CreateUser(s, username, password, email, phoneNumber, userId, role, env);
            Database.GetUserByUsername(r.0, username.value, true) == Some(r.1.value.(role := Database.BuiltRole(role.value)))
    ensures var r := CreateUser(s, username, password, email, phoneNumber, userId, role, env);
            role.value == CUSTOMER || role.value == Database.AGENT || role.value == Database.ADMINISTRATOR ==>
              Database.GetUserByUsername(r.0, username.value, true) == r.1
  {
    var r := CreateUser(s, username, password, email, phoneNumber, userId, role, env);
    var u := Database.GetUserByUsername(r.0, username.value, true);
    assert r.0.users[s.nextUserId].username == username.value;
    assert u.Some?;
    if u.value.id != s.nextUserId {
      assert Database.UsernameTaken(s, username.value);
      assert false;
    }
  }

  /**
   * `updateUserInfo`: e-mail and phone number only, through `updateUser`
   * with a `null` new password. That method filters on a column the users
   * table lacks, so the call reports failure and writes nothing, for every
   * user and whether or not the database is otherwise healthy.
   */
  function UpdateUserInfo(s: Store, userId: int, email: string, phoneNumber: string, ok: bool): (r: (Store, bool))
    ensures r == (s, false)
  {
    Database.UpdateUser(s, userId, email, phoneNumber, None, ok)
  }

  /**
   * `updateUserInfo` as evidently intended, on top of `updateUser` keyed by
   * `id`: the e-mail and phone number of an existing user are set, and no
   * password ever changes.
   */
  function UpdateUserInfoIntended(s: Store, userId: int, email: string, phoneNumber: string, ok: bool): (r: (Store, bool))
    ensures r.1 <==> ok && userId in s.users
    ensures !r.1 ==> r.0 == s
    ensures r.0.users.Keys == s.users.Keys
    ensures r.1 ==> r.0.users[userId].email == email && r.0.users[userId].phoneNumber == phoneNumber
    ensures forall id :: id in s.users ==> r.0.users[id].password == s.users[id].password
    ensures forall id :: id in s.users && id != userId ==> r.0.users[id] == s.users[id]
    ensures r.0 == s.(users := r.0.users)
  {
    Database.UpdateUserById(s, userId, email, phoneNumber, None, ok)
  }

  /**
   * The profile edit is lost: for an existing user, the source's update
   * leaves the user's row (so what `getUserByUsername` returns) as it was,
   * where the intended one stores the new e-mail and phone number.
   */
  lemma UpdateUserInfoLosesEdit(s: Store, userId: int, email: string, phoneNumber: string)
    requires userId in s.users
    ensures var (t, updated) := UpdateUserInfo(s, userId, email, phoneNumber, true);
            !updated && t.users[userId] == s.users[userId]
    ensures var (t, updated) := UpdateUserInfoIntended(s, userId, email, phoneNumber, true);
            updated && t.users[userId].email == email && t.users[userId].phoneNumber == phoneNumber
    ensures forall username, readOk ::
              Database.GetUserByUsername(UpdateUserInfo(s, userId, email, phoneNumber, true).0, username, readOk)
              == Database.GetUserByUsername(s, username, readOk)
  {
    Database.UpdateUserMissesExistingRow(s, userId, email, phoneNumber, None);
  }
}
