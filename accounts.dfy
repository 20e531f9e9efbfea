/** The account rules of the user controller: registration with a unique
    email, the login checks in their order, partial update, the self-delete
    and self-deactivate guards, activation and the password change. The
    table is a map from the primary key to the user record. */
module Accounts {
  import opened Common

  /** A stored password hash. bcrypt is modelled as an injective function:
      a hash verifies against exactly the password it was made from. Salt
      and cost are not modelled. */
  datatype PasswordHash = Bcrypt(secret: string)

  /** `bcrypt.hash`. */
  function Hash(password: string): (h: PasswordHash)
    ensures Verifies(password, h)
    ensures forall other :: Verifies(other, h) ==> other == password
  {
    Bcrypt(password)
  }

  /** `bcrypt.compare`. */
  predicate Verifies(password: string, h: PasswordHash) {
    h.secret == password
  }

  /** A password is accepted exactly when the stored hash was made from it. */
  lemma CompareIsHashEquality(password: string, h: PasswordHash)
    ensures Verifies(password, h) <==> h == Hash(password)
  {
  }

  /** A row of the Users table: `firstName`, `lastName`, `email` and
      `password` are required, `phone` and `roleId` nullable. */
  datatype User = User(
    firstName: string,
    lastName: string,
    email: string,
    password: PasswordHash,
    phone: Option<string>,
    roleId: Option<nat>,
    isActive: bool)

  /** The user object of the register and login replies: the fields are
      picked one by one, and neither the password hash nor the role id is
      among them. */
  datatype Profile = Profile(
    id: nat,
    firstName: string,
    lastName: string,
    email: string,
    phone: Option<string>,
    isActive: bool)

  function ProfileOf(id: nat, u: User): Profile {
    Profile(id, u.firstName, u.lastName, u.email, u.phone, u.isActive)
  }

  /** The login reply: the profile and the user's role, here the role id
      that the role association is loaded by. */
  datatype LoginReply = LoginReply(profile: Profile, roleId: Option<nat>)

  /** The row as `findByPk` returns it with the `password` attribute
      excluded: every other column, the role id included. */
  datatype UserView = UserView(
    id: nat,
    firstName: string,
    lastName: string,
    email: string,
    phone: Option<string>,
    roleId: Option<nat>,
    isActive: bool)

  function WithoutPassword(id: nat, u: User): UserView {
    UserView(id, u.firstName, u.lastName, u.email, u.phone, u.roleId, u.isActive)
  }

  datatype AccountError =
    | EmailTaken
    | InvalidCredentials
    | AccountDeactivated
    | NotFound
    | CannotModifySelf
    | WrongPassword
    | RoleNotFound

  /** The `roleId` foreign key into the Roles table: null, or the id of a
      role. */
  predicate RoleExists(roles: set<nat>, roleId: Option<nat>) {
    roleId.None? || roleId.value in roles
  }

  /** The `unique` index on `email`. */
  predicate UniqueEmails(users: map<nat, User>) {
    forall a, b :: a in users && b in users && a != b ==> users[a].email != users[b].email
  }

  predicate EmailUsed(users: map<nat, User>, email: string) {
    exists k :: k in users && users[k].email == email
  }

  predicate EmailUsedByOther(users: map<nat, User>, email: string, id: nat) {
    exists k :: k in users && k != id && users[k].email == email
  }

  /** `login`: an unknown email and a wrong password give the same error;
      an inactive account is reported before the password is checked. */
  function Authenticate(users: map<nat, User>, email: string, password: string): (r: Result<LoginReply, AccountError>)
    requires UniqueEmails(users)
    ensures !EmailUsed(users, email) ==> r == Err(InvalidCredentials)
    ensures forall k :: k in users && users[k].email == email ==>
      && (!users[k].isActive ==> r == Err(AccountDeactivated))
      && (users[k].isActive && !Verifies(password, users[k].password) ==> r == Err(InvalidCredentials))
      && (users[k].isActive && Verifies(password, users[k].password) ==>
           r == Ok(LoginReply(ProfileOf(k, users[k]), users[k].roleId)))
  {
    if !EmailUsed(users, email) then Err(InvalidCredentials)
    else
      var k :| k in users && users[k].email == email;
      if !users[k].isActive then Err(AccountDeactivated)
      else if !Verifies(password, users[k].password) then Err(InvalidCredentials)
      else Ok(LoginReply(ProfileOf(k, users[k]), users[k].roleId))
  }

  /** A freshly registered account logs in with its password and with no
      other. */
  lemma LoginAfterRegister(users: map<nat, User>, id: nat, u: User, password: string, other: string)
    requires UniqueEmails(users) && id !in users && !EmailUsed(users, u.email)
    requires u.password == Hash(password) && u.isActive
    requires other != password
    ensures UniqueEmails(users[id := u])
    ensures Authenticate(users[id := u], u.email, password) == Ok(LoginReply(ProfileOf(id, u), u.roleId))
    ensures Authenticate(users[id := u], u.email, other) == Err(InvalidCredentials)
  {
    var users' := users[id := u];
    assert UniqueEmails(users');
    assert id in users' && users'[id].email == u.email;
  }

  /** After a password change, an active account logs in with the new
      password and no longer with any other. */
  lemma LoginAfterPasswordChange(users: map<nat, User>, id: nat, newPassword: string, other: string)
    requires UniqueEmails(users) && id in users && users[id].isActive
    requires other != newPassword
    ensures var users' := users[id := users[id].(password := Hash(newPassword))];
      && UniqueEmails(users')
      && Authenticate(users', users[id].email, newPassword) == Ok(LoginReply(ProfileOf(id, users'[id]), users[id].roleId))
      && Authenticate(users', users[id].email, other) == Err(InvalidCredentials)
  {
    var users' := users[id := users[id].(password := Hash(newPassword))];
    assert UniqueEmails(users');
    assert id in users' && users'[id].email == users[id].email;
  }

  /** The user table. */
  class UserStore {
    var users: map<nat, User>
    var nextId: nat
    /** The ids of the Roles table, which these handlers only read. */
    const roles: set<nat>

    ghost predicate Valid()
      reads this
    {
      && nextId >= 1
      && (forall k :: k in users ==> 0 < k < nextId)
      && UniqueEmails(users)
      && (forall k :: k in users ==> RoleExists(roles, users[k].roleId))
    }

    constructor (roles: set<nat>)
      ensures Valid() && users == map[] && nextId == 1 && this.roles == roles
    {
      users := map[];
      nextId := 1;
      this.roles := roles;
    }

    /** `register`: refused when the email is in use; a role id that names
        no role makes the insert fail on the foreign key; otherwise the hash
        of the password is stored and the account starts active. */
    method Register(firstName: string, lastName: string, email: string, password: string,
                    phone: Option<string>, roleId: Option<nat>)
        returns (r: Result<Profile, AccountError>)
      requires Valid()
      modifies this
      ensures Valid()
      ensures EmailUsed(old(users), email) ==> r == Err(EmailTaken) && unchanged(this)
      ensures !EmailUsed(old(users), email) && !RoleExists(roles, roleId) ==>
        r == Err(RoleNotFound) && unchanged(this)
      ensures !EmailUsed(old(users), email) && RoleExists(roles, roleId) ==>
        var id := old(nextId);
        var u := User(firstName, lastName, email, Hash(password), phone, roleId, true);
        && id !in old(users)
        && users == old(users)[id := u]
        && nextId == id + 1
        && r == Ok(ProfileOf(id, u))
    {
      if exists k :: k in users && users[k].email == email {
        return Err(EmailTaken);
      }
      if roleId.Some? && roleId.value !in roles {
        return Err(RoleNotFound);
      }
      var id := nextId;
      var u := User(firstName, lastName, email, Hash(password), phone, roleId, true);
      users := users[id := u];
      nextId := nextId + 1;
      r := Ok(ProfileOf(id, u));
    }

    /** `login`. */
    method Login(email: string, password: string) returns (r: Result<LoginReply, AccountError>)
      requires Valid()
      ensures r == Authenticate(users, email, password)
    {
      if !(exists k :: k in users && users[k].email == email) {
        return Err(InvalidCredentials);
      }
      var k :| k in users && users[k].email == email;
      if !users[k].isActive {
        return Err(AccountDeactivated);
      }
      if users[k].password.secret != password {
        return Err(InvalidCredentials);
      }
      r := Ok(LoginReply(ProfileOf(k, users[k]), users[k].roleId));
    }

    /** `updateUser`: a new email must not belong to another user; first
        name, last name, email and role fall back on a falsy value, phone
        and the active flag only on an absent one. A truthy role id that
        names no role makes the update fail on the foreign key. Nothing
        keeps a user from deactivating themselves here. */
    method UpdateUser(id: nat, firstName: Option<string>, lastName: Option<string>, email: Option<string>,
                      phone: Patch<Option<string>>, roleId: Option<nat>, isActive: Patch<bool>)
        returns (r: Result<UserView, AccountError>)
      requires Valid()
      modifies this
      ensures Valid()
      ensures nextId == old(nextId)
      ensures id !in old(users) ==> r == Err(NotFound) && unchanged(this)
      ensures id in old(users) && Truthy(email) && email.value != old(users)[id].email
              && EmailUsedByOther(old(users), email.value, id) ==>
        r == Err(EmailTaken) && unchanged(this)
      ensures id in old(users)
              && !(Truthy(email) && email.value != old(users)[id].email && EmailUsedByOther(old(users), email.value, id))
              && TruthyId(roleId) && roleId.value !in roles ==>
        r == Err(RoleNotFound) && unchanged(this)
      ensures id in old(users)
              && !(Truthy(email) && email.value != old(users)[id].email && EmailUsedByOther(old(users), email.value, id))
              && !(TruthyId(roleId) && roleId.value !in roles) ==>
        var u := old(users)[id];
        var u' := u.(firstName := OrElse(firstName, u.firstName),
                     lastName := OrElse(lastName, u.lastName),
                     email := OrElse(email, u.email),
                     phone := phone.ApplyTo(u.phone),
                     roleId := IdOrElse(roleId, u.roleId),
                     isActive := isActive.ApplyTo(u.isActive));
        && users == old(users)[id := u']
        && r == Ok(WithoutPassword(id, u'))
    {
      if id !in users {
        return Err(NotFound);
      }
      var u := users[id];
      if Truthy(email) && email.value != u.email {
        if exists k :: k in users && k != id && users[k].email == email.value {
          return Err(EmailTaken);
        }
      }
      if TruthyId(roleId) && roleId.value !in roles {
        return Err(RoleNotFound);
      }
      var u' := u.(firstName := OrElse(firstName, u.firstName),
                   lastName := OrElse(lastName, u.lastName),
                   email := OrElse(email, u.email),
                   phone := phone.ApplyTo(u.phone),
                   roleId := IdOrElse(roleId, u.roleId),
                   isActive := isActive.ApplyTo(u.isActive));
      users := users[id := u'];
      r := Ok(WithoutPassword(id, u'));
    }

    /** `deleteUser`: the authenticated caller, when there is one, cannot
        delete their own account. */
    method DeleteUser(id: nat, caller: Option<nat>) returns (r: Result<nat, AccountError>)
      requires Valid()
      modifies this
      ensures Valid()
      ensures nextId == old(nextId)
      ensures id !in old(users) ==> r == Err(NotFound) && unchanged(this)
      ensures id in old(users) && caller == Some(id) ==> r == Err(CannotModifySelf) && unchanged(this)
      ensures id in old(users) && caller != Some(id) ==> r == Ok(id) && users == old(users) - {id}
    {
      if id !in users {
        return Err(NotFound);
      }
      if caller == Some(id) {
        return Err(CannotModifySelf);
      }
      users := users - {id};
      r := Ok(id);
    }

    /** `activateUser`: only the active flag changes. The reply is the
        updated row as loaded, password hash included. */
    method ActivateUser(id: nat) returns (r: Result<(nat, User), AccountError>)
      requires Valid()
      modifies this
      ensures Valid()
      ensures nextId == old(nextId)
      ensures id !in old(users) ==> r == Err(NotFound) && unchanged(this)
      ensures id in old(users) ==>
        var u' := old(users)[id].(isActive := true);
        users == old(users)[id := u'] && r == Ok((id, u'))
    {
      if id !in users {
        return Err(NotFound);
      }
      var u' := users[id].(isActive := true);
      users := users[id := u'];
      r := Ok((id, u'));
    }

    /** `deactivateUser`: the caller cannot deactivate their own account.
        The reply is the updated row as loaded, password hash included. */
    method DeactivateUser(id: nat, caller: Option<nat>) returns (r: Result<(nat, User), AccountError>)
      requires Valid()
      modifies this
      ensures Valid()
      ensures nextId == old(nextId)
      ensures id !in old(users) ==> r == Err(NotFound) && unchanged(this)
      ensures id in old(users) && caller == Some(id) ==> r == Err(CannotModifySelf) && unchanged(this)
      ensures id in old(users) && caller != Some(id) ==>
        var u' := old(users)[id].(isActive := false);
        users == old(users)[id := u'] && r == Ok((id, u'))
    {
      if id !in users {
        return Err(NotFound);
      }
      if caller == Some(id) {
        return Err(CannotModifySelf);
      }
      var u' := users[id].(isActive := false);
      users := users[id := u'];
      r := Ok((id, u'));
    }

    /** `changePassword`: the current password must verify against the
        stored hash; then the hash of the new password replaces it. */
    method ChangePassword(id: nat, currentPassword: string, newPassword: string)
        returns (r: Result<nat, AccountError>)
      requires Valid()
      modifies this
      ensures Valid()
      ensures nextId == old(nextId)
      ensures id !in old(users) ==> r == Err(NotFound) && unchanged(this)
      ensures id in old(users) && !Verifies(currentPassword, old(users)[id].password) ==>
        r == Err(WrongPassword) && unchanged(this)
      ensures id in old(users) && Verifies(currentPassword, old(users)[id].password) ==>
        && r == Ok(id)
        && users == old(users)[id := old(users)[id].(password := Hash(newPassword))]
    {
      if id !in users {
        return Err(NotFound);
      }
      if users[id].password.secret != currentPassword {
        return Err(WrongPassword);
      }
      users := users[id := users[id].(password := Hash(newPassword))];
      r := Ok(id);
    }
  }
}
