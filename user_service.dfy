/**
 * UserService (service/UserService.java): administrative operations over the
 * user table. Each operation looks the user up, calls the entity's mutators and
 * saves it back; an unknown id or a taken email throws IllegalArgumentException.
 */
module UserManagement {
  import opened Wrappers
  import opened Seqs
  import opened UserEntity
  import opened UserRepo

  /** The IllegalArgumentExceptions UserService throws. */
  datatype UserError = EmailTaken(email: string) | UserNotFound

  /** `getUserStatistics`. */
  datatype UserStats = UserStats(total: nat, totalActive: nat, students: nat, librarians: nat, inactive: int)

  /** Set of keys whose user satisfies a condition: the `count...` queries. */
  function ActiveIds(users: map<int, User>): set<int>
    reads users.Values
  {
    set k | k in users && users[k].isActive
  }

  function RoleIds(users: map<int, User>, role: Role): set<int>
    reads users.Values
  {
    set k | k in users && users[k].role == role
  }

  class UserService {
    const repo: UserRepository
    const encoder: PasswordEncoder

    constructor (repo: UserRepository, encoder: PasswordEncoder)
      ensures this.repo == repo && this.encoder == encoder
    {
      this.repo := repo;
      this.encoder := encoder;
    }

    /** `createUser`: a taken email throws and stores nothing; otherwise one new,
        active user with the given role and the encoded password is stored. */
    method CreateUser(name: string, email: string, password: string, phone: string, role: Role)
      returns (r: Result<User, UserError>)
      requires repo.Valid()
      modifies repo
      ensures repo.Valid()
      ensures r.Err? <==> old(repo.ExistsByEmail(email))
      ensures r.Err? ==> r.error == EmailTaken(email) && unchanged(repo)
      ensures r.Ok? ==> fresh(r.value) && repo.users == old(repo.users)[old(repo.nextId) := r.value]
      ensures r.Ok? ==> r.value.id == Some(old(repo.nextId)) && r.value.name == name && r.value.email == email
      ensures r.Ok? ==> r.value.password == encoder.encode(password) && r.value.phone == phone
      ensures r.Ok? ==> r.value.role == role && r.value.isActive
    {
      if repo.ExistsByEmail(email) {
        return Err(EmailTaken(email));
      }
      var encoded := encoder.encode(password);
      var user := new User.WithRole(name, email, encoded, phone, role);
      repo.Insert(user);
      r := Ok(user);
    }

    /** `updateUser`: an unknown id throws; otherwise only name and phone change. */
    method UpdateUser(id: int, name: string, phone: string) returns (r: Result<User, UserError>)
      requires repo.Valid()
      modifies if id in repo.users then {repo.users[id]} else {}
      ensures repo.Valid()
      ensures r.Err? <==> id !in repo.users
      ensures r.Err? ==> r.error == UserNotFound
      ensures r.Ok? ==> r.value == repo.users[id] && r.value.name == name && r.value.phone == phone
      ensures r.Ok? ==> r.value.id == old(r.value.id) && r.value.email == old(r.value.email)
      ensures r.Ok? ==> r.value.password == old(r.value.password) && r.value.role == old(r.value.role)
      ensures r.Ok? ==> r.value.isActive == old(r.value.isActive)
    {
      if id !in repo.users {
        return Err(UserNotFound);
      }
      var user := repo.users[id];
      user.SetName(name);
      user.SetPhone(phone);
      r := Ok(user);
    }

    /** `changePassword` (administrative): only the stored hash changes. */
    method ChangePassword(id: int, newPassword: string) returns (r: Outcome<UserError>)
      requires repo.Valid()
      modifies if id in repo.users then {repo.users[id]} else {}
      ensures repo.Valid()
      ensures r.Fail? <==> id !in repo.users
      ensures r.Fail? ==> r.error == UserNotFound
      ensures r.Pass? ==> repo.users[id].password == encoder.encode(newPassword)
      ensures r.Pass? ==> var u := repo.users[id];
        u.id == old(u.id) && u.name == old(u.name) && u.email == old(u.email) && u.phone == old(u.phone)
        && u.role == old(u.role) && u.isActive == old(u.isActive)
    {
      if id !in repo.users {
        return Fail(UserNotFound);
      }
      var user := repo.users[id];
      user.SetPassword(encoder.encode(newPassword));
      r := Pass;
    }

    /** `activateUser`: sets the flag, whatever it was. */
    method ActivateUser(id: int) returns (r: Outcome<UserError>)
      requires repo.Valid()
      modifies if id in repo.users then {repo.users[id]} else {}
      ensures repo.Valid()
      ensures r.Fail? <==> id !in repo.users
      ensures r.Fail? ==> r.error == UserNotFound
      ensures r.Pass? ==> repo.users[id].isActive
      ensures r.Pass? ==> var u := repo.users[id];
        u.id == old(u.id) && u.name == old(u.name) && u.email == old(u.email) && u.phone == old(u.phone)
        && u.role == old(u.role) && u.password == old(u.password)
    {
      if id !in repo.users {
        return Fail(UserNotFound);
      }
      repo.users[id].Activate();
      r := Pass;
    }

    /** `deactivateUser`: a soft delete; the user stays in the table. */
    method DeactivateUser(id: int) returns (r: Outcome<UserError>)
      requires repo.Valid()
      modifies if id in repo.users then {repo.users[id]} else {}
      ensures repo.Valid()
      ensures r.Fail? <==> id !in repo.users
      ensures r.Fail? ==> r.error == UserNotFound
      ensures r.Pass? ==> !repo.users[id].isActive
      ensures r.Pass? ==> var u := repo.users[id];
        u.id == old(u.id) && u.name == old(u.name) && u.email == old(u.email) && u.phone == old(u.phone)
        && u.role == old(u.role) && u.password == old(u.password)
    {
      if id !in repo.users {
        return Fail(UserNotFound);
      }
      repo.users[id].Deactivate();
      r := Pass;
    }

    /** `getUserStatistics`: `inactive` is computed as total minus active. */
    function GetUserStatistics(): (s: UserStats)
      reads repo, repo.users.Values
      ensures s.total == |repo.users| && s.totalActive == |ActiveIds(repo.users)|
      ensures s.students == |RoleIds(repo.users, Student)| && s.librarians == |RoleIds(repo.users, Librarian)|
      ensures s.inactive == s.total - s.totalActive
      ensures 0 <= s.totalActive <= s.total && s.inactive >= 0
      ensures s.students + s.librarians == s.total
    {
      var users := repo.users;
      var total := |users|;
      var active := |ActiveIds(users)|;
      assert users.Keys == ActiveIds(users) + (users.Keys - ActiveIds(users));
      assert users.Keys == RoleIds(users, Student) + RoleIds(users, Librarian) by {
        forall k | k in users
          ensures k in RoleIds(users, Student) + RoleIds(users, Librarian)
        {
          if users[k].role == Student {
            assert k in RoleIds(users, Student);
          } else {
            assert k in RoleIds(users, Librarian);
          }
        }
      }
      UserStats(total, active, |RoleIds(users, Student)|, |RoleIds(users, Librarian)|, total - active)
    }

    /** The subtraction in `getUserStatistics` is the number of inactive users. */
    lemma InactiveIsCounted()
      ensures GetUserStatistics().inactive == |set k | k in repo.users && !repo.users[k].isActive|
    {
      var users := repo.users;
      var inactive := set k | k in users && !users[k].isActive;
      assert users.Keys == ActiveIds(users) + inactive;
      assert ActiveIds(users) * inactive == {};
    }

    /** `getRecentUsers`: the first `limit` rows of the active users the database
        lists newest first (`listing`); a negative limit throws. */
    function GetRecentUsers(listing: seq<User>, limit: int): (r: Option<seq<User>>)
      reads repo, repo.users.Values, listing
      requires forall i | 0 <= i < |listing| :: listing[i] in repo.users.Values && listing[i].isActive
      ensures r.None? <==> limit < 0
      ensures r.Some? ==> |r.value| <= limit && |r.value| <= |listing| && r.value == listing[..|r.value|]
      ensures r.Some? ==> |r.value| == if limit <= |listing| then limit else |listing|
      ensures r.Some? ==> forall i | 0 <= i < |r.value| :: r.value[i] in repo.users.Values && r.value[i].isActive
    {
      Limit(listing, limit)
    }
  }
}
