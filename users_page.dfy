/**
 * The users page of the dashboard (pages/Users.js): the search filter, the
 * phone and role formatting of each row, the avatar initials and the stat
 * cards. The role label is the one `Navbar.FormatRole` defines; the page's
 * own `formatRole` is the same switch.
 */
module UsersPage {
  import opened Wrappers
  import opened Text
  import opened Seqs
  import Navbar

  /** A user as the API returns it to the page; `role` is the enum name. */
  datatype UserView = UserView(name: string, email: string, role: string, isActive: bool, phone: Option<string>)

  /** Name or email contains the term, ignoring case. */
  predicate MatchesTerm(u: UserView, term: string) {
    Includes(ToLower(u.name), ToLower(term)) || Includes(ToLower(u.email), ToLower(term))
  }

  /** The search effect: a blank term shows everyone; otherwise the untrimmed
      term filters by name or email. */
  function SearchUsers(users: seq<UserView>, searchTerm: string): (r: seq<UserView>)
    ensures JsBlank(searchTerm) ==> r == users
    ensures forall i | 0 <= i < |r| :: r[i] in users && (JsBlank(searchTerm) || MatchesTerm(r[i], searchTerm))
    ensures forall i | 0 <= i < |users| && MatchesTerm(users[i], searchTerm) :: users[i] in r
    ensures forall u | u in users :: multiset(r)[u] == if JsBlank(searchTerm) || MatchesTerm(u, searchTerm) then multiset(users)[u] else 0
  {
    FilterMultiplicity(users, (u: UserView) => MatchesTerm(u, searchTerm));
    if JsBlank(searchTerm) then users else Filter(users, (u: UserView) => MatchesTerm(u, searchTerm))
  }

  lemma SearchUsersKeepsOrder(users: seq<UserView>, searchTerm: string)
    ensures IsSubsequence(SearchUsers(users, searchTerm), users)
  {
    if JsBlank(searchTerm) {
      SubsequenceReflexive(users);
    } else {
      FilterIsSubsequence(users, (u: UserView) => MatchesTerm(u, searchTerm));
    }
  }

  /** Brazilian mobile layout `(DD) DDDDD-DDDD` of eleven digits. */
  function PhoneLayout(d: string): string
    requires |d| == 11
  {
    "(" + d[..2] + ") " + d[2..7] + "-" + d[7..]
  }

  /** `formatPhone`: '-' for a missing or empty phone; eleven digits (after
      deleting every non-digit) are laid out as a mobile number; anything else
      is shown as typed. */
  function FormatPhone(phone: Option<string>): (r: string)
    ensures phone.None? || phone.value == "" ==> r == "-"
    ensures phone.Some? && phone.value != "" && |DigitsOnly(phone.value)| != 11 ==> r == phone.value
    ensures phone.Some? && phone.value != "" && |DigitsOnly(phone.value)| == 11 ==>
      && |r| == 15 && r[0] == '(' && r[3] == ')' && r[4] == ' ' && r[10] == '-'
      && r[1..3] == DigitsOnly(phone.value)[..2]
      && r[5..10] == DigitsOnly(phone.value)[2..7]
      && r[11..] == DigitsOnly(phone.value)[7..]
  {
    if phone.None? || phone.value == "" then "-"
    else
      var cleaned := DigitsOnly(phone.value);
      if |cleaned| == 11 then PhoneLayout(cleaned) else phone.value
  }

  /** Deleting the punctuation of a formatted phone gives back its digits. */
  lemma FormatPhoneKeepsDigits(phone: string)
    requires phone != [] && |DigitsOnly(phone)| == 11
    ensures DigitsOnly(FormatPhone(Some(phone))) == DigitsOnly(phone)
  {
    LayoutDigits(DigitsOnly(phone));
  }

  lemma LayoutDigits(d: string)
    requires |d| == 11 && forall i | 0 <= i < |d| :: IsDigit(d[i])
    ensures DigitsOnly(PhoneLayout(d)) == d
  {
    var s1 := "(" + d[..2];
    var s2 := s1 + ") ";
    var s3 := s2 + d[2..7];
    var s4 := s3 + "-";
    assert PhoneLayout(d) == s4 + d[7..];
    assert DigitsOnly(s4) == d[..2] + d[2..7] by {
      assert DigitsOnly("(") == [] && DigitsOnly(") ") == [] && DigitsOnly("-") == [];
      DigitsOnlyAppend("(", d[..2]);
      DigitsOnlyAppend(s1, ") ");
      DigitsOnlyAppend(s2, d[2..7]);
      DigitsOnlyAppend(s3, "-");
    }
    DigitsOnlyAppend(s4, d[7..]);
    LayoutParts(d);
  }

  lemma LayoutParts(d: string)
    requires |d| == 11
    ensures d[..2] + d[2..7] + d[7..] == d
  {
    assert d[..2] + d[2..7] == d[..7];
  }

  /** Formatting a formatted phone changes nothing. */
  lemma FormatPhoneIdempotent(phone: Option<string>)
    ensures FormatPhone(Some(FormatPhone(phone))) == FormatPhone(phone)
  {
    var r := FormatPhone(phone);
    if phone.Some? && phone.value != "" && |DigitsOnly(phone.value)| == 11 {
      FormatPhoneKeepsDigits(phone.value);
    } else {
      assert r == "-" ==> DigitsOnly(r) == [];
    }
  }

  /** The avatar of a row: `user.name?.split(' ')...toUpperCase()`, with no
      'U' fallback, so a missing name shows nothing. */
  function AvatarInitials(name: Option<string>): (r: Option<string>)
    ensures r.None? <==> name.None?
    ensures name.Some? ==> r.value == Navbar.Initials(name.value)
    ensures name.Some? && Navbar.Initials(name.value) != [] ==> r.value == Navbar.UserInitials(name)
  {
    if name.None? then None else Some(Navbar.Initials(name.value))
  }

  /** The stat cards: total, active, students, librarians. */
  function ActiveCount(users: seq<UserView>): nat {
    Count(users, (u: UserView) => u.isActive)
  }

  function StudentCount(users: seq<UserView>): nat {
    Count(users, (u: UserView) => u.role == "STUDENT")
  }

  function LibrarianCount(users: seq<UserView>): nat {
    Count(users, (u: UserView) => u.role == "LIBRARIAN")
  }

  /** Every card is at most the total, and no user is counted as both a
      student and a librarian. */
  lemma StatCards(users: seq<UserView>)
    ensures ActiveCount(users) <= |users| && StudentCount(users) <= |users| && LibrarianCount(users) <= |users|
    ensures StudentCount(users) + LibrarianCount(users) <= |users|
  {
    CountDisjoint(users, (u: UserView) => u.role == "STUDENT", (u: UserView) => u.role == "LIBRARIAN");
  }
}
