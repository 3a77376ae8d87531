/**
 * The User entity. entity/User.java is not part of this model; its behaviour is
 * the one entity/UserTest.java asserts: constructor defaults, activation,
 * the Spring Security view (username, authorities, enabled, locked), equality
 * on (id, email), and the persistence timestamps.
 */
module UserEntity {
  import opened Wrappers

  datatype Role = Student | Librarian

  /** The enum constant's name, as `toString` and the JSON give it. */
  function RoleName(role: Role): string {
    match role
    case Student => "STUDENT"
    case Librarian => "LIBRARIAN"
  }

  /** The single granted authority of a role: "ROLE_" + the role's name. */
  function Authority(role: Role): string {
    "ROLE_" + RoleName(role)
  }

  /** Reads a granted authority back as a role, as Spring's `hasRole` checks do. */
  function RoleOfAuthority(authority: string): Option<Role> {
    if authority == "ROLE_STUDENT" then Some(Student)
    else if authority == "ROLE_LIBRARIAN" then Some(Librarian)
    else None
  }

  /** Each role's authority names that role and no other. */
  lemma AuthorityNamesRole(role: Role)
    ensures RoleOfAuthority(Authority(role)) == Some(role)
  {
  }

  class User {
    var id: Option<int>
    var name: string
    var email: string
    var password: string
    var phone: string
    var role: Role
    var isActive: bool
    var createdAt: Option<int>
    var updatedAt: Option<int>

    /** The four-argument constructor: role STUDENT, active. */
    constructor (name: string, email: string, password: string, phone: string)
      ensures this.name == name && this.email == email
      ensures this.password == password && this.phone == phone
      ensures role == Student && isActive
      ensures id == None && createdAt == None && updatedAt == None
    {
      id := None;
      this.name := name;
      this.email := email;
      this.password := password;
      this.phone := phone;
      role := Student;
      isActive := true;
      createdAt := None;
      updatedAt := None;
    }

    /** The five-argument constructor: the given role, active. */
    constructor WithRole(name: string, email: string, password: string, phone: string, role: Role)
      ensures this.name == name && this.email == email
      ensures this.password == password && this.phone == phone
      ensures this.role == role && isActive
      ensures id == None && createdAt == None && updatedAt == None
    {
      id := None;
      this.name := name;
      this.email := email;
      this.password := password;
      this.phone := phone;
      this.role := role;
      isActive := true;
      createdAt := None;
      updatedAt := None;
    }

    predicate IsStudent()
      reads this
    {
      role == Student
    }

    predicate IsLibrarian()
      reads this
    {
      role == Librarian
    }

    /** `getUsername`: the email is the login name. */
    function GetUsername(): string
      reads this
    {
      email
    }

    /** `getAuthorities`: exactly one authority, derived from the current role. */
    function GetAuthorities(): (r: seq<string>)
      reads this
      ensures |r| == 1 && RoleOfAuthority(r[0]) == Some(role)
    {
      AuthorityNamesRole(role);
      [Authority(role)]
    }

    predicate IsEnabled()
      reads this
    {
      isActive
    }

    predicate IsAccountNonLocked()
      reads this
      ensures IsAccountNonLocked() <==> IsEnabled()
    {
      isActive
    }

    predicate IsAccountNonExpired() {
      true
    }

    predicate IsCredentialsNonExpired() {
      true
    }

    /** Equality as the tests pin it: same id and same email, other fields ignored. */
    predicate Equals(other: User?)
      reads this, other
      ensures Equals(other) <==> other != null && HashKey() == other.HashKey()
    {
      other != null && id == other.id && email == other.email
    }

    /** The fields the hash code is computed from; users that are equal share it. */
    function HashKey(): (Option<int>, string)
      reads this
    {
      (id, email)
    }

    method Activate()
      modifies this
      ensures isActive && IsEnabled() && IsAccountNonLocked()
      ensures id == old(id) && name == old(name) && email == old(email) && password == old(password)
      ensures phone == old(phone) && role == old(role) && createdAt == old(createdAt) && updatedAt == old(updatedAt)
    {
      isActive := true;
    }

    method Deactivate()
      modifies this
      ensures !isActive && !IsEnabled() && !IsAccountNonLocked()
      ensures id == old(id) && name == old(name) && email == old(email) && password == old(password)
      ensures phone == old(phone) && role == old(role) && createdAt == old(createdAt) && updatedAt == old(updatedAt)
    {
      isActive := false;
    }

    method SetRole(role: Role)
      modifies this`role
      ensures this.role == role
      ensures GetAuthorities() == [Authority(role)]
    {
      this.role := role;
    }

    method SetId(id: Option<int>)
      modifies this`id
      ensures this.id == id
    {
      this.id := id;
    }

    method SetName(name: string)
      modifies this`name
      ensures this.name == name
    {
      this.name := name;
    }

    method SetPhone(phone: string)
      modifies this`phone
      ensures this.phone == phone
    {
      this.phone := phone;
    }

    method SetPassword(password: string)
      modifies this`password
      ensures this.password == password
    {
      this.password := password;
    }

    /** `@PrePersist onCreate`: both timestamps take the same instant. */
    method OnCreate(now: int)
      modifies this`createdAt, this`updatedAt
      ensures createdAt == Some(now) && updatedAt == createdAt
    {
      createdAt := Some(now);
      updatedAt := Some(now);
    }

    /** `@PreUpdate onUpdate`: only `updatedAt` moves. */
    method OnUpdate(now: int)
      modifies this`updatedAt
      ensures updatedAt == Some(now)
    {
      updatedAt := Some(now);
    }
  }

  /** `equals` is an equivalence, and equal users share a hash key, as the
      contract between `equals` and `hashCode` demands. */
  lemma EqualsIsEquivalence(a: User, b: User, c: User)
    ensures a.Equals(a)
    ensures a.Equals(b) ==> b.Equals(a)
    ensures a.Equals(b) && b.Equals(c) ==> a.Equals(c)
    ensures a.Equals(b) ==> a.HashKey() == b.HashKey()
    ensures !a.Equals(null)
  {
  }

  /** Users with the same id and email are equal and hash alike, whatever their
      other fields; a different email makes them unequal even with the same id. */
  method EqualityScenario(id: int, email: string, otherEmail: string,
                          name1: string, name2: string, pw1: string, pw2: string, ph1: string, ph2: string)
    returns (sameEqual: bool, sameHash: bool, differentEqual: bool)
    ensures sameEqual && sameHash
    ensures differentEqual <==> email == otherEmail
  {
    var u1 := new User(name1, email, pw1, ph1);
    var u2 := new User(name2, email, pw2, ph2);
    var u3 := new User(name1, otherEmail, pw1, ph1);
    u1.SetId(Some(id));
    u2.SetId(Some(id));
    u3.SetId(Some(id));
    sameEqual := u1.Equals(u2);
    sameHash := u1.HashKey() == u2.HashKey();
    differentEqual := u1.Equals(u3);
  }

  /** Exactly one of `isStudent` and `isLibrarian` holds, whichever constructor
      and role; deactivation locks and disables, activation restores. */
  method RoleAndActivationScenario(name: string, email: string, password: string, phone: string, role: Role)
    returns (student: bool, librarian: bool, activeAfterDeactivate: bool, lockedAfterDeactivate: bool,
             activeAfterActivate: bool, username: string, authorities: seq<string>)
    ensures student != librarian && (student <==> role == Student)
    ensures !activeAfterDeactivate && lockedAfterDeactivate && activeAfterActivate
    ensures username == email
    ensures authorities == [Authority(role)]
  {
    var u := new User.WithRole(name, email, password, phone, role);
    student := u.IsStudent();
    librarian := u.IsLibrarian();
    username := u.GetUsername();
    authorities := u.GetAuthorities();
    u.Deactivate();
    activeAfterDeactivate := u.isActive;
    lockedAfterDeactivate := !u.IsAccountNonLocked();
    u.Activate();
    activeAfterActivate := u.isActive;
  }
}
