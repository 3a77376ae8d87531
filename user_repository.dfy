/**
 * The user table behind UserService and AuthService (repository/UserRepository.java,
 * a Spring Data interface): users keyed by their generated id, looked up by id or
 * by exact email.
 */
module UserRepo {
  import opened Wrappers
  import opened UserEntity

  /** Spring's PasswordEncoder (BCrypt in the application): a one-way `encode`
      and the check `matches(raw, encoded)`. Both are foreign code. */
  datatype PasswordEncoder = PasswordEncoder(encode: string -> string, matches: (string, string) -> bool)

  class UserRepository {
    var users: map<int, User>
    var nextId: int

    /** Every stored user carries its own key as id, ids come from a counter,
        and no two stored users share an email. */
    ghost predicate Valid()
      reads this, users.Values
    {
      && (forall k | k in users :: users[k].id == Some(k) && k < nextId)
      && (forall k, j | k in users && j in users && users[k].email == users[j].email :: k == j)
    }

    constructor ()
      ensures Valid() && users == map[]
    {
      users := map[];
      nextId := 1;
    }

    /** `existsByEmail`: exact string match, no case folding. */
    predicate ExistsByEmail(email: string)
      reads this, users.Values
    {
      exists k | k in users :: users[k].email == email
    }

    /** `findByEmail`: the one stored user with that email, if any. */
    function FindByEmail(email: string): (r: Option<User>)
      reads this, users.Values
      requires Valid()
      ensures r.Some? <==> ExistsByEmail(email)
      ensures r.Some? ==> r.value in users.Values && r.value.email == email
      ensures forall k | k in users && users[k].email == email :: r == Some(users[k])
    {
      if ExistsByEmail(email) then
        var k :| k in users && users[k].email == email;
        Some(users[k])
      else
        None
    }

    /** `save` of a new entity: the identity column hands out the next id. */
    method Insert(u: User)
      requires Valid() && u !in users.Values && !ExistsByEmail(u.email)
      modifies this, u`id
      ensures Valid()
      ensures u.id == Some(old(nextId)) && users == old(users)[old(nextId) := u]
      ensures nextId == old(nextId) + 1
    {
      u.id := Some(nextId);
      users := users[nextId := u];
      nextId := nextId + 1;
    }
  }
}
