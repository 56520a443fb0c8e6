/** The admin sign-in form: credentials are looked up in the stored user
    list; on success the user is written to the `currentUser` session slot,
    on failure one fixed message is shown. */
module Login {
  import opened Optional
  import UsersCrud

  type User = UsersCrud.User

  /** What reading the `users` storage key can give. */
  datatype StoredUsers = Missing | Unparsable | Parsed(users: seq<User>)

  const FailureMessage := "Credenciales incorrectas o usuario inactivo"

  predicate CredentialsMatch(u: User, email: string, password: string)
  {
    u.email == email && u.password == password && u.isActive
  }

  /** Position `i` holds a matching user and no earlier position does. */
  ghost predicate FirstMatchAt(users: seq<User>, email: string, password: string, i: int)
  {
    && 0 <= i < |users|
    && CredentialsMatch(users[i], email, password)
    && forall j :: 0 <= j < i ==> !CredentialsMatch(users[j], email, password)
  }

  /** `users.find(...)`: the first user, in list order, whose email and
      password equal the inputs exactly and who is active; none if no user
      qualifies. */
  function FindUser(users: seq<User>, email: string, password: string): (r: Option<User>)
    ensures r.None? <==> forall i :: 0 <= i < |users| ==> !CredentialsMatch(users[i], email, password)
    ensures r.Some? ==> exists i :: FirstMatchAt(users, email, password, i) && users[i] == r.value
  {
    if users == [] then None
    else if CredentialsMatch(users[0], email, password) then
      assert FirstMatchAt(users, email, password, 0);
      Some(users[0])
    else
      var r := FindUser(users[1..], email, password);
      assert forall i :: 0 < i < |users| ==> users[i] == users[1..][i - 1];
      if r.Some? then
        assert exists i :: FirstMatchAt(users, email, password, i) && users[i] == r.value by {
          var k :| FirstMatchAt(users[1..], email, password, k) && users[1..][k] == r.value;
          assert FirstMatchAt(users, email, password, k + 1);
        }
        r
      else r
  }

  /** The user with these credentials, or none when the list is missing,
      cannot be parsed, or holds no active user with exactly these
      credentials. Whatever is returned matches and is active. */
  function ValidateCredentials(stored: StoredUsers, email: string, password: string): (r: Option<User>)
    ensures !stored.Parsed? ==> r.None?
    ensures r.Some? ==> r.value.email == email && r.value.password == password && r.value.isActive
    ensures r.Some? ==> r.value in stored.users
    ensures stored.Parsed? && (exists u :: u in stored.users && CredentialsMatch(u, email, password)) ==> r.Some?
  {
    match stored
    case Missing => None
    case Unparsable => None
    case Parsed(users) => FindUser(users, email, password)
  }

  /** The first matching user is the one returned, even when later users
      have the same credentials. */
  lemma FirstMatchWins(users: seq<User>, email: string, password: string, k: nat)
    requires k < |users| && CredentialsMatch(users[k], email, password)
    requires forall j :: 0 <= j < k ==> !CredentialsMatch(users[j], email, password)
    ensures ValidateCredentials(Parsed(users), email, password) == Some(users[k])
  {
    var r := FindUser(users, email, password);
    var i :| FirstMatchAt(users, email, password, i) && users[i] == r.value;
    assert i == k;
  }

  /** A user just created through the staff screen with the active flag set
      can sign in with the form's email and password. */
  lemma CreatedActiveUserSignsIn(users: seq<User>, f: UsersCrud.UserForm, id: string, createdAt: string)
    requires f.isActive
    ensures ValidateCredentials(Parsed(users + [UsersCrud.NewUser(f, id, createdAt)]), f.email, f.password).Some?
  {
    var all := users + [UsersCrud.NewUser(f, id, createdAt)];
    assert CredentialsMatch(all[|users|], f.email, f.password);
  }

  /** Deactivating a user (toggling one who was active) stops that user from
      signing in: no returned user carries that id any more. */
  lemma ToggledOffCannotSignIn(users: seq<User>, id: string, email: string, password: string)
    requires forall i :: 0 <= i < |users| && users[i].id == id ==> users[i].isActive
    ensures var r := ValidateCredentials(Parsed(UsersCrud.Toggled(users, id)), email, password);
      r.Some? ==> r.value.id != id
  {
    var toggled := UsersCrud.Toggled(users, id);
    var r := FindUser(toggled, email, password);
    if r.Some? {
      var i :| FirstMatchAt(toggled, email, password, i) && toggled[i] == r.value;
      assert toggled[i].id == users[i].id;
    }
  }

  /** The fields of the sign-in form. */
  datatype Field = Email | Password

  /** The state of the sign-in screen. */
  class LoginForm {
    var email: string
    var password: string
    /** The message under the form; empty when there is none. */
    var error: string
    var loading: bool
    /** The `currentUser` session slot. */
    var session: Option<User>

    constructor (session: Option<User>)
      ensures email == "" && password == "" && error == "" && !loading
      ensures this.session == session
    {
      email, password, error, loading := "", "", "", false;
      this.session := session;
    }

    /** Typing in a field stores the value and clears any error shown. */
    method HandleInputChange(field: Field, value: string)
      modifies this
      ensures email == (if field == Email then value else old(email))
      ensures password == (if field == Password then value else old(password))
      ensures error == ""
      ensures loading == old(loading) && session == old(session)
    {
      if field == Email {
        email := value;
      } else {
        password := value;
      }
      if error != "" {
        error := "";
      }
    }

    /** Submits the form against the stored user list. On success the
        session slot holds the returned user (also handed to the caller); on
        failure the fixed message is shown and the session is not written. */
    method HandleSubmit(stored: StoredUsers) returns (signedIn: Option<User>)
      modifies this
      ensures signedIn == ValidateCredentials(stored, old(email), old(password))
      ensures signedIn.Some? ==> session == signedIn && error == ""
      ensures signedIn.None? ==> session == old(session) && error == FailureMessage
      ensures !loading && email == old(email) && password == old(password)
    {
      loading := true;
      error := "";
      signedIn := ValidateCredentials(stored, email, password);
      if signedIn.Some? {
        session := signedIn;
      } else {
        error := FailureMessage;
      }
      loading := false;
    }
  }
}
