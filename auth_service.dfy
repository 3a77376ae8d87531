/**
 * AuthService (service/AuthService.java): login, self-registration as a student,
 * lookup by email and password change after re-authentication. Request fields
 * may be absent (Java `null`), so they are `Option<string>` where the source
 * checks for `null`.
 */
module Authentication {
  import opened Wrappers
  import opened Text
  import opened UserEntity
  import opened UserRepo

  /** Both failures are BadCredentialsException; only the message differs. */
  datatype AuthError = InvalidCredentials | UserDisabled

  /** The IllegalArgumentExceptions thrown by the validators, in checking order. */
  datatype ValidationError = NameTooShort | InvalidEmail | PasswordTooShort | PhoneTooShort

  datatype RegisterError = EmailInUse | Invalid(reason: ValidationError)

  datatype ChangePasswordError = NotAuthenticated(cause: AuthError) | RejectedPassword(reason: ValidationError)

  const MinNameLength := 2
  const MinPasswordLength := 6
  const MinPhoneLength := 10

  /** `validatePassword`: Java's `length()` counts UTF-16 code units. */
  function ValidatePassword(password: Option<string>): (r: Outcome<ValidationError>)
    ensures r.Pass? <==> password.Some? && Utf16Length(password.value) >= MinPasswordLength
    ensures r.Fail? ==> r.error == PasswordTooShort
    ensures password.Some? && |password.value| >= MinPasswordLength ==> r.Pass?
  {
    if password.None? || Utf16Length(password.value) < MinPasswordLength then Fail(PasswordTooShort) else Pass
  }

  predicate NameOk(name: Option<string>) {
    name.Some? && Utf16Length(JavaTrim(name.value)) >= MinNameLength
  }

  predicate EmailOk(email: Option<string>) {
    email.Some? && Includes(email.value, "@")
  }

  predicate PhoneOk(phone: Option<string>) {
    phone.Some? && Utf16Length(JavaTrim(phone.value)) >= MinPhoneLength
  }

  /** `validateUserData`: the first failing check in the order name, email,
      password, phone is the one reported. */
  function ValidateUserData(name: Option<string>, email: Option<string>, password: Option<string>, phone: Option<string>)
    : (r: Outcome<ValidationError>)
    ensures r.Pass? <==> NameOk(name) && EmailOk(email) && ValidatePassword(password).Pass? && PhoneOk(phone)
    ensures r == Fail(NameTooShort) <==> !NameOk(name)
    ensures r == Fail(InvalidEmail) <==> NameOk(name) && !EmailOk(email)
    ensures r == Fail(PasswordTooShort) <==> NameOk(name) && EmailOk(email) && ValidatePassword(password).Fail?
    ensures r == Fail(PhoneTooShort) <==> NameOk(name) && EmailOk(email) && ValidatePassword(password).Pass? && !PhoneOk(phone)
  {
    if !NameOk(name) then Fail(NameTooShort)
    else if !EmailOk(email) then Fail(InvalidEmail)
    else if ValidatePassword(password).Fail? then ValidatePassword(password)
    else if !PhoneOk(phone) then Fail(PhoneTooShort)
    else Pass
  }

  /** The order of `register`'s checks: a taken email is reported before any
      validation error, and the data is validated only for a free email. */
  function RegistrationCheck(emailTaken: bool, name: Option<string>, email: Option<string>, password: Option<string>, phone: Option<string>)
    : (r: Outcome<RegisterError>)
    ensures r == Fail(EmailInUse) <==> emailTaken
    ensures r.Fail? && r.error.Invalid? <==> !emailTaken && ValidateUserData(name, email, password, phone).Fail?
    ensures r.Fail? && r.error.Invalid? ==> r.error.reason == ValidateUserData(name, email, password, phone).error
    ensures r.Pass? ==> name.Some? && email.Some? && password.Some? && phone.Some?
  {
    if emailTaken then Fail(EmailInUse)
    else
      match ValidateUserData(name, email, password, phone)
      case Fail(reason) => Fail(Invalid(reason))
      case Pass => Pass
  }

  class AuthService {
    const repo: UserRepository
    const encoder: PasswordEncoder

    constructor (repo: UserRepository, encoder: PasswordEncoder)
      ensures this.repo == repo && this.encoder == encoder
    {
      this.repo := repo;
      this.encoder := encoder;
    }

    /** `authenticate`: succeeds exactly for a stored, active user with that email
        whose hash matches; a deactivated account is reported as such even when
        the password is wrong. */
    function Authenticate(email: string, password: string): (r: Result<User, AuthError>)
      reads this, repo, repo.users.Values
      requires repo.Valid()
      ensures r.Ok? <==> exists k | k in repo.users :: var u := repo.users[k];
        u.email == email && u.isActive && encoder.matches(password, u.password)
      ensures r == Err(UserDisabled) <==> exists k | k in repo.users :: repo.users[k].email == email && !repo.users[k].isActive
      ensures r.Ok? ==> r.value in repo.users.Values && r.value.email == email
      ensures !repo.ExistsByEmail(email) ==> r == Err(InvalidCredentials)
    {
      match repo.FindByEmail(email)
      case None => Err(InvalidCredentials)
      case Some(user) =>
        if !user.isActive then Err(UserDisabled)
        else if !encoder.matches(password, user.password) then Err(InvalidCredentials)
        else Ok(user)
    }

    /** `findByEmail`: IllegalArgumentException when nobody has that email. */
    function FindByEmail(email: string): (r: Result<User, ()>)
      reads this, repo, repo.users.Values
      requires repo.Valid()
      ensures r.Ok? <==> repo.ExistsByEmail(email)
      ensures r.Ok? ==> r.value in repo.users.Values && r.value.email == email
    {
      match repo.FindByEmail(email)
      case None => Err(())
      case Some(user) => Ok(user)
    }

    /** `userExists`. */
    predicate UserExists(email: Option<string>)
      reads this, repo, repo.users.Values
    {
      email.Some? && repo.ExistsByEmail(email.value)
    }

    /** `register`: the duplicate check runs before validation; a new account
        is always a student, active, with the encoded password. */
    method Register(name: Option<string>, email: Option<string>, password: Option<string>, phone: Option<string>)
      returns (r: Result<User, RegisterError>)
      requires repo.Valid()
      modifies repo
      ensures repo.Valid()
      ensures r.Err? <==> RegistrationCheck(old(UserExists(email)), name, email, password, phone).Fail?
      ensures r.Err? ==> r.error == RegistrationCheck(old(UserExists(email)), name, email, password, phone).error
      ensures r.Err? ==> unchanged(repo)
      ensures r.Ok? ==> fresh(r.value) && repo.users == old(repo.users)[old(repo.nextId) := r.value]
      ensures r.Ok? ==> name.Some? && email.Some? && password.Some? && phone.Some?
      ensures r.Ok? ==> r.value.name == name.value && r.value.email == email.value && r.value.phone == phone.value
      ensures r.Ok? ==> r.value.password == encoder.encode(password.value)
      ensures r.Ok? ==> r.value.role == Student && r.value.isActive
      ensures r.Ok? && encoder.matches(password.value, encoder.encode(password.value)) ==>
        Authenticate(email.value, password.value) == Ok(r.value)
    {
      var check := RegistrationCheck(UserExists(email), name, email, password, phone);
      if check.Fail? {
        return Err(check.error);
      }
      var user := new User.WithRole(name.value, email.value, encoder.encode(password.value), phone.value, Student);
      repo.Insert(user);
      FoundAfterInsert(user);
      r := Ok(user);
    }

    /** A user just stored is the one `findByEmail` returns for its email. */
    lemma FoundAfterInsert(user: User)
      requires repo.Valid() && user in repo.users.Values
      ensures repo.FindByEmail(user.email) == Some(user)
    {
    }

    /** `changePassword`: re-authenticates with the current password, validates
        the new one, and only then replaces the stored hash. */
    method ChangePassword(email: string, currentPassword: string, newPassword: Option<string>)
      returns (r: Outcome<ChangePasswordError>)
      requires repo.Valid()
      modifies repo.users.Values
      ensures repo.Valid()
      ensures r.Fail? && r.error.NotAuthenticated? <==> old(Authenticate(email, currentPassword)).Err?
      ensures r.Fail? && r.error.NotAuthenticated? ==> r.error.cause == old(Authenticate(email, currentPassword)).error
      ensures r == Fail(RejectedPassword(PasswordTooShort)) <==>
        old(Authenticate(email, currentPassword)).Ok? && ValidatePassword(newPassword).Fail?
      ensures r.Fail? ==> forall u | u in repo.users.Values :: unchanged(u)
      ensures r.Pass? ==> newPassword.Some? && var u := old(Authenticate(email, currentPassword)).value;
        u.password == encoder.encode(newPassword.value) && u.email == email && u.isActive
      ensures r.Pass? ==> var u := old(Authenticate(email, currentPassword)).value;
        u.id == old(u.id) && u.name == old(u.name) && u.email == old(u.email) && u.phone == old(u.phone)
        && u.role == old(u.role) && u.isActive == old(u.isActive)
      ensures forall u | u in repo.users.Values && u.email != email :: unchanged(u)
    {
      var auth := Authenticate(email, currentPassword);
      if auth.Err? {
        return Fail(NotAuthenticated(auth.error));
      }
      var valid := ValidatePassword(newPassword);
      if valid.Fail? {
        return Fail(RejectedPassword(valid.error));
      }
      auth.value.SetPassword(encoder.encode(newPassword.value));
      r := Pass;
    }
  }
}
