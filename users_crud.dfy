/** The staff-accounts screen: a list of users held in component state (and
    mirrored under the `users` storage key), a create/edit form, and the
    create, update, delete and activate/deactivate actions. */
module UsersCrud {
  import opened Optional
  import Seqs
  import Text

  datatype Role = Admin | Doctor | Receptionist

  datatype User = User(
    id: string,
    name: string,
    email: string,
    password: string,
    isActive: bool,
    role: Role,
    createdAt: string)

  /** The five fields the create/edit form holds. */
  datatype UserForm = UserForm(
    name: string,
    email: string,
    password: string,
    isActive: bool,
    role: Role)

  /** Outcome of the form validator; each failure has its own alert text. */
  datatype FormCheck = Accepted | NameRequired | EmailRequired | PasswordRequired | EmailInvalid

  /** The alert shown for a failed check; an accepted form shows none. */
  function AlertText(c: FormCheck): (m: string)
    ensures m == "" <==> c == Accepted
  {
    match c
    case Accepted => ""
    case NameRequired => "El nombre es requerido"
    case EmailRequired => "El correo electrónico es requerido"
    case PasswordRequired => "La contraseña es requerida"
    case EmailInvalid => "El correo electrónico no es válido"
  }

  /** The form as the reset leaves it. */
  const BlankForm := UserForm("", "", "", true, Receptionist)

  /** Checks, in this order, a non-blank name, a non-blank email, a non-blank
      password and an '@' in the email; the first check that fails decides.
      Nothing else about the email's format is checked. */
  function ValidateForm(f: UserForm): (r: FormCheck)
    ensures r == NameRequired <==> Text.IsBlank(f.name)
    ensures r == EmailRequired <==> !Text.IsBlank(f.name) && Text.IsBlank(f.email)
    ensures r == PasswordRequired <==>
      !Text.IsBlank(f.name) && !Text.IsBlank(f.email) && Text.IsBlank(f.password)
    ensures r == EmailInvalid <==>
      !Text.IsBlank(f.name) && !Text.IsBlank(f.email) && !Text.IsBlank(f.password) && '@' !in f.email
    ensures r == Accepted <==>
      !Text.IsBlank(f.name) && !Text.IsBlank(f.email) && !Text.IsBlank(f.password) && '@' in f.email
  {
    Text.IncludesChar(f.email, '@');
    if Text.Trim(f.name) == "" then NameRequired
    else if Text.Trim(f.email) == "" then EmailRequired
    else if Text.Trim(f.password) == "" then PasswordRequired
    else if !Text.Includes(f.email, "@") then EmailInvalid
    else Accepted
  }

  /** A change event from one form control: the text inputs carry text, the
      active checkbox its checked state, the role select a role. */
  datatype FormInput =
    | NameInput(name: string)
    | EmailInput(email: string)
    | PasswordInput(password: string)
    | ActiveInput(isActive: bool)
    | RoleInput(role: Role)

  /** The form after one control changes: that field takes the new value and
      the other four keep theirs. */
  function Entered(f: UserForm, input: FormInput): UserForm
  {
    match input
    case NameInput(v) => f.(name := v)
    case EmailInput(v) => f.(email := v)
    case PasswordInput(v) => f.(password := v)
    case ActiveInput(v) => f.(isActive := v)
    case RoleInput(v) => f.(role := v)
  }

  /** The form filled from an existing user, when the edit dialog opens. */
  function FormOf(u: User): UserForm
  {
    UserForm(u.name, u.email, u.password, u.isActive, u.role)
  }

  /** The record a create builds; its id and creation time come from the clock. */
  function NewUser(f: UserForm, id: string, createdAt: string): (u: User)
    ensures FormOf(u) == f && u.id == id && u.createdAt == createdAt
  {
    User(id, f.name, f.email, f.password, f.isActive, f.role, createdAt)
  }

  /** An existing record with the form's five editable fields written over it. */
  function Edited(u: User, f: UserForm): (e: User)
    ensures FormOf(e) == f && e.id == u.id && e.createdAt == u.createdAt
  {
    u.(name := f.name, email := f.email, password := f.password, isActive := f.isActive, role := f.role)
  }

  /** The list after an edit of user `id`: records with that id take the
      form's five fields and keep their id and creation time; every other
      record, and the order, is unchanged. */
  function UpdatedUsers(users: seq<User>, id: string, f: UserForm): (r: seq<User>)
    ensures |r| == |users|
    ensures forall i :: 0 <= i < |users| ==> r[i].id == users[i].id && r[i].createdAt == users[i].createdAt
    ensures forall i :: 0 <= i < |users| && users[i].id == id ==> FormOf(r[i]) == f
    ensures forall i :: 0 <= i < |users| && users[i].id != id ==> r[i] == users[i]
  {
    Seqs.Map(users, (u: User) => if u.id == id then Edited(u, f) else u)
  }

  /** The list after deleting `id`: exactly the records with another id, in
      their original order. */
  function WithoutUser(users: seq<User>, id: string): (r: seq<User>)
    ensures forall u :: u in r <==> u in users && u.id != id
    ensures forall u :: multiset(r)[u] == if u.id != id then multiset(users)[u] else 0
    ensures Seqs.IsSubsequence(r, users)
  {
    var keep := (u: User) => u.id != id;
    Seqs.FilterIsSubsequence(users, keep);
    assert forall u :: multiset(Seqs.Filter(users, keep))[u] == if keep(u) then multiset(users)[u] else 0 by {
      forall u ensures multiset(Seqs.Filter(users, keep))[u] == if keep(u) then multiset(users)[u] else 0 {
        Seqs.FilterCount(users, keep, u);
      }
    }
    Seqs.Filter(users, keep)
  }

  /** The list after toggling `id`: records with that id have `isActive`
      flipped and nothing else changed; all other records are unchanged. */
  function Toggled(users: seq<User>, id: string): (r: seq<User>)
    ensures |r| == |users|
    ensures forall i :: 0 <= i < |users| && users[i].id == id ==>
      r[i] == users[i].(isActive := !users[i].isActive)
    ensures forall i :: 0 <= i < |users| && users[i].id != id ==> r[i] == users[i]
  {
    Seqs.Map(users, (u: User) => if u.id == id then u.(isActive := !u.isActive) else u)
  }

  /** Toggling the same user twice restores the original list. */
  lemma {:induction false} ToggleTwiceRestores(users: seq<User>, id: string)
    ensures Toggled(Toggled(users, id), id) == users
  {
    var once := Toggled(users, id);
    var twice := Toggled(once, id);
    forall i | 0 <= i < |users| ensures twice[i] == users[i] {
      assert once[i].id == users[i].id;
    }
  }

  /** Saving the same edit twice gives the same list as saving it once. */
  lemma {:induction false} UpdateIsIdempotent(users: seq<User>, id: string, f: UserForm)
    ensures UpdatedUsers(UpdatedUsers(users, id, f), id, f) == UpdatedUsers(users, id, f)
  {
    var once := UpdatedUsers(users, id, f);
    var twice := UpdatedUsers(once, id, f);
    forall i | 0 <= i < |users| ensures twice[i] == once[i] {
      assert once[i].id == users[i].id;
    }
  }

  /** Deleting a user makes any earlier toggle of that user irrelevant. */
  lemma DeleteAfterToggle(users: seq<User>, id: string)
    ensures WithoutUser(Toggled(users, id), id) == WithoutUser(users, id)
  {
    Seqs.FilterAfterMap(users, (u: User) => if u.id == id then u.(isActive := !u.isActive) else u,
                        (u: User) => u.id != id);
  }

  /** Deleting a user makes any earlier edit of that user irrelevant. */
  lemma DeleteAfterUpdate(users: seq<User>, id: string, f: UserForm)
    ensures WithoutUser(UpdatedUsers(users, id, f), id) == WithoutUser(users, id)
  {
    Seqs.FilterAfterMap(users, (u: User) => if u.id == id then Edited(u, f) else u,
                        (u: User) => u.id != id);
  }

  /** A second delete of the same id changes nothing. */
  lemma DeleteIsIdempotent(users: seq<User>, id: string)
    ensures WithoutUser(WithoutUser(users, id), id) == WithoutUser(users, id)
  {
    var once := WithoutUser(users, id);
    assert forall i :: 0 <= i < |once| ==> once[i] in once;
    Seqs.FilterKeepsAll(once, (u: User) => u.id != id);
  }

  /** The state of the staff-accounts screen. */
  class UsersPanel {
    var users: seq<User>
    /** The copy under the `users` storage key. */
    var stored: seq<User>
    var form: UserForm
    /** The user whose edit dialog is open, if any. */
    var editingUser: Option<User>
    var showModal: bool

    /** The screen as mounted over the list read from storage. */
    constructor (saved: seq<User>)
      ensures users == saved && stored == saved
      ensures form == BlankForm && editingUser == None && !showModal
    {
      users, stored := saved, saved;
      form, editingUser, showModal := BlankForm, None, false;
    }

    /** Replaces the list in state and in storage. */
    method SaveUsers(updated: seq<User>)
      modifies this
      ensures users == updated && stored == updated
      ensures form == old(form) && editingUser == old(editingUser) && showModal == old(showModal)
    {
      users, stored := updated, updated;
    }

    /** Empty name, email and password, active, receptionist, no user being edited. */
    method ResetForm()
      modifies this
      ensures form == BlankForm && form.isActive && form.role == Receptionist
      ensures form.name == "" && form.email == "" && form.password == ""
      ensures editingUser == None
      ensures users == old(users) && stored == old(stored) && showModal == old(showModal)
    {
      form := BlankForm;
      editingUser := None;
    }

    /** Opens the dialog, for editing `user` or, without one, for a new user. */
    method OpenModal(user: Option<User>)
      modifies this
      ensures showModal && editingUser == user
      ensures form == if user.Some? then FormOf(user.value) else BlankForm
      ensures users == old(users) && stored == old(stored)
    {
      if user.Some? {
        editingUser := user;
        form := FormOf(user.value);
      } else {
        ResetForm();
      }
      showModal := true;
    }

    method CloseModal()
      modifies this
      ensures !showModal && form == BlankForm && editingUser == None
      ensures users == old(users) && stored == old(stored)
    {
      showModal := false;
      ResetForm();
    }

    /** Editing one form control writes that field and leaves the other four. */
    method HandleInputChange(input: FormInput)
      modifies this
      ensures form == Entered(old(form), input)
      ensures users == old(users) && stored == old(stored)
      ensures editingUser == old(editingUser) && showModal == old(showModal)
    {
      form := Entered(form, input);
    }

    /** A valid form appends one new user at the end, leaving the others in
        place, and closes the dialog; an invalid one changes nothing. */
    method CreateUser(id: string, createdAt: string) returns (check: FormCheck)
      modifies this
      ensures check == ValidateForm(old(form))
      ensures check == Accepted ==>
        && users == old(users) + [NewUser(old(form), id, createdAt)]
        && stored == users
        && !showModal && form == BlankForm && editingUser == None
      ensures check != Accepted ==>
        users == old(users) && stored == old(stored) && form == old(form)
        && editingUser == old(editingUser) && showModal == old(showModal)
    {
      check := ValidateForm(form);
      if check != Accepted {
        return;
      }
      var newUser := NewUser(form, id, createdAt);
      SaveUsers(users + [newUser]);
      CloseModal();
    }

    /** With a valid form and a user being edited, overwrites that user's five
        editable fields and closes the dialog; otherwise changes nothing. */
    method UpdateUser() returns (check: FormCheck)
      modifies this
      ensures check == ValidateForm(old(form))
      ensures check == Accepted && old(editingUser).Some? ==>
        && users == UpdatedUsers(old(users), old(editingUser).value.id, old(form))
        && stored == users
        && !showModal && form == BlankForm && editingUser == None
      ensures check != Accepted || old(editingUser).None? ==>
        users == old(users) && stored == old(stored) && form == old(form)
        && editingUser == old(editingUser) && showModal == old(showModal)
    {
      check := ValidateForm(form);
      if check != Accepted || editingUser.None? {
        return;
      }
      SaveUsers(UpdatedUsers(users, editingUser.value.id, form));
      CloseModal();
    }

    /** The form's submit button: an update while editing, a create otherwise. */
    method Submit(id: string, createdAt: string) returns (check: FormCheck)
      modifies this
      ensures check == ValidateForm(old(form))
      ensures check == Accepted ==>
        users == if old(editingUser).Some?
                 then UpdatedUsers(old(users), old(editingUser).value.id, old(form))
                 else old(users) + [NewUser(old(form), id, createdAt)]
      ensures check == Accepted ==> stored == users && !showModal && form == BlankForm && editingUser == None
      ensures check != Accepted ==>
        users == old(users) && stored == old(stored) && form == old(form)
        && editingUser == old(editingUser) && showModal == old(showModal)
    {
      if editingUser.Some? {
        check := UpdateUser();
      } else {
        check := CreateUser(id, createdAt);
      }
    }

    /** When confirmed, removes exactly the users with this id; otherwise
        nothing changes. */
    method DeleteUser(id: string, confirmed: bool)
      modifies this
      ensures users == if confirmed then WithoutUser(old(users), id) else old(users)
      ensures stored == if confirmed then users else old(stored)
      ensures form == old(form) && editingUser == old(editingUser) && showModal == old(showModal)
    {
      if confirmed {
        SaveUsers(WithoutUser(users, id));
      }
    }

    /** Flips `isActive` on the users with this id. */
    method ToggleUserStatus(id: string)
      modifies this
      ensures users == Toggled(old(users), id) && stored == users
      ensures form == old(form) && editingUser == old(editingUser) && showModal == old(showModal)
    {
      SaveUsers(Toggled(users, id));
    }
  }
}
