# Library management system — a verified model of its core

The library management system has two parts. A Spring Boot back end keeps the
library's books, users, loans and reservations. A React dashboard lets
librarians browse and edit the catalogue and the user list. This project models
the core of both in Dafny and proves the properties that code promises:

- **Loans and reservations** (`loan.dfy`, `reservation.dfy`) are classes whose
  methods update fields in place.
  - A loan can be renewed at most twice.
  - A returned loan is never overdue.
  - A cancelled reservation never expires.
- **Users** (`user.dfy`): the user entity as its unit tests pin it down.
  - The constructor defaults, activation and the Spring Security view
    (username, a single `ROLE_` authority, enabled/locked).
  - Equality and hashing on (id, email) only.
  - The `@PrePersist` and `@PreUpdate` timestamps.
- **Repositories** (`user_repository.dfy`): the user table, a map from id to
  user object. It is keyed and e-mail unique, and it models `findByEmail`,
  `existsByEmail` and `save`.
- **UserService** (`user_service.dfy`): creation, update, password change,
  activation and deactivation, statistics and the recent-users list.
- **AuthService** (`auth_service.dfy`): login, registration with its field
  checks, and password change. Each error path is a value of an error type.
- **BookService** (`book_service.dfy`): the catalogue, a map from id to book.
  - `validateBook`: title, author and ISBN present; the ISBN has 10 or 13 digits.
  - ISBN uniqueness.
  - Loan and return of a copy, search, statistics and recent books.
- **JwtService** (`jwt_service.dfy`): token claims and issue time, expiry
  (24 hours by default), subject checks and the `Bearer ` header.
- **JwtAuthenticationFilter** (`jwt_filter.dfy`): the decision one request
  leads to, and its effect on the security context.
- **Dashboard**:
  - `book_modal.dfy`: the book form.
  - `books_page.dfy`: the books page's filters, list updates and stat cards.
  - `users_page.dfy`: the users page's search, phone formatting and stat cards.
  - `navbar.dfy`: the initials avatar and role labels.

Shared helpers model Java and JavaScript string functions (`text.dfy`):

- trimming, with Java's and JavaScript's different notions of space;
- `length` in UTF-16 code units;
- digit filtering, `includes`, `split`/`join`;
- Latin-1 case mapping, in which ß upper-cases to "SS".

`seqs.dfy` holds filter, count, limit and subsequence helpers. `wrappers.dfy`
holds `Option`, `Result` and `Outcome`.

Exceptions that the Java code throws become `Result`/`Outcome` error values.
The current time (`LocalDateTime.now()`, `System.currentTimeMillis()`) is a
parameter. The JWT signing library and BCrypt are function parameters whose
behaviour the lemmas state as hypotheses (for example, that parsing a signed
claim set gives it back).

## Model

| member | source | states |
|---|---|---|
| LoanEntity.Loan.constructor | library-management-system/src/main/java/com/library/entity/Loan.java:54-62 | a new loan is unreturned, not renewed, with zero renewals and the given dates |
| LoanEntity.Loan.ReturnBook | library-management-system/src/main/java/com/library/entity/Loan.java:81-84 | the loan is returned, stamped with now, can no longer be renewed and is never overdue; dates and renewals are unchanged |
| LoanEntity.Loan.Renew | library-management-system/src/main/java/com/library/entity/Loan.java:86-97 | fails with CannotRenew, changing nothing, unless the loan is unreturned with fewer than 2 renewals; otherwise sets the new due date, marks it renewed and counts one more renewal, keeping the count at most 2 |
| LoanEntity.Loan.IsOverdue | library-management-system/src/main/java/com/library/entity/Loan.java:77-79 | an unreturned loan whose due date lies strictly before now; OverdueIsPermanent shows it stays overdue until returned |
| LoanEntity.Loan.CanRenew | library-management-system/src/main/java/com/library/entity/Loan.java:86-88 | an unreturned loan with fewer than 2 renewals; Renew succeeds exactly when it holds |
| LoanEntity.Loan.OverdueIsPermanent | library-management-system/src/main/java/com/library/entity/Loan.java:77-79 | once overdue, a loan is overdue at every later instant, and it is open |
| LoanEntity.RenewalCap | library-management-system/src/main/java/com/library/entity/Loan.java:86-97 | from a new loan, the first two renewals succeed, the third fails, and the count stops at 2 |
| LoanEntity.RenewAfterReturn | library-management-system/src/main/java/com/library/entity/Loan.java:77-97 | a returned loan cannot be renewed and is not overdue at any later time |
| ReservationEntity.Reservation.constructor | library-management-system/src/main/java/com/library/entity/Reservation.java:48-55 | a new reservation is active and not notified, with the given dates |
| ReservationEntity.Reservation.Cancel | library-management-system/src/main/java/com/library/entity/Reservation.java:74-84 | after cancel the reservation is inactive and should never expire; cancelling twice is the same as once |
| ReservationEntity.Reservation.IsExpired | library-management-system/src/main/java/com/library/entity/Reservation.java:70-72 | now lies strictly after the expiry date |
| ReservationEntity.Reservation.ShouldExpire | library-management-system/src/main/java/com/library/entity/Reservation.java:82-84 | the reservation is active and expired |
| ReservationEntity.Reservation.ExpiryIsPermanent | library-management-system/src/main/java/com/library/entity/Reservation.java:70-84 | expiry, and the need to expire an active reservation, persist at every later instant |
| ReservationEntity.Reservation.MarkAsNotified | library-management-system/src/main/java/com/library/entity/Reservation.java:78-80 | sets notified, leaves active as it was, and is idempotent |
| ReservationEntity.Reservation.SetActive | library-management-system/src/main/java/com/library/entity/Reservation.java:103 | sets only the active flag |
| ReservationEntity.ExpiryLifecycle | library-management-system/src/main/java/com/library/entity/Reservation.java:70-84 | a new reservation should expire exactly when now is after its expiry date; once cancelled it should not, and notifying it does not revive it |
| UserEntity.AuthorityNamesRole | library-management-system/src/test/java/com/library/entity/UserTest.java:84-125 | each role's authority reads back as that role |
| UserEntity.User.constructor | library-management-system/src/test/java/com/library/entity/UserTest.java:24-48 | the four-argument constructor keeps its arguments and gives role STUDENT, active, no id and no timestamps |
| UserEntity.User.WithRole | library-management-system/src/test/java/com/library/entity/UserTest.java:51-65 | the five-argument constructor keeps the given role and is active |
| UserEntity.User.GetAuthorities | library-management-system/src/test/java/com/library/entity/UserTest.java:84-125 | exactly one authority, naming the current role |
| UserEntity.User.Activate | library-management-system/src/test/java/com/library/entity/UserTest.java:68-80 | the user becomes active; nothing else changes |
| UserEntity.User.GetUsername | library-management-system/src/test/java/com/library/entity/UserTest.java:84-106 | the login name is the e-mail |
| UserEntity.User.IsEnabled | library-management-system/src/test/java/com/library/entity/UserTest.java:84-115 | enabled exactly while active |
| UserEntity.User.IsAccountNonLocked | library-management-system/src/test/java/com/library/entity/UserTest.java:84-115 | unlocked exactly when enabled, so a deactivated account is locked |
| UserEntity.User.IsAccountNonExpired | library-management-system/src/test/java/com/library/entity/UserTest.java:84-106 | accounts never expire |
| UserEntity.User.IsCredentialsNonExpired | library-management-system/src/test/java/com/library/entity/UserTest.java:84-106 | credentials never expire |
| UserEntity.User.Equals | library-management-system/src/test/java/com/library/entity/UserTest.java:161-182 | equal exactly when the other user is present and has the same hash key, that is the same id and e-mail |
| UserEntity.User.HashKey | library-management-system/src/test/java/com/library/entity/UserTest.java:184-195 | the (id, e-mail) pair the hash code is computed from |
| UserEntity.EqualsIsEquivalence | library-management-system/src/test/java/com/library/entity/UserTest.java:161-195 | equality is reflexive, symmetric and transitive, never holds for null, and equal users share a hash key |
| UserEntity.User.Deactivate | library-management-system/src/test/java/com/library/entity/UserTest.java:68-80 | the user becomes inactive, so disabled and locked; nothing else changes |
| UserEntity.User.SetRole | library-management-system/src/test/java/com/library/entity/UserTest.java:51-65 | sets only the role |
| UserEntity.User.SetId | library-management-system/src/test/java/com/library/entity/UserTest.java:161-182 | sets only the id |
| UserEntity.User.SetName | library-management-system/src/main/java/com/library/service/UserService.java:89-97 | sets only the name |
| UserEntity.User.SetPhone | library-management-system/src/main/java/com/library/service/UserService.java:89-97 | sets only the phone |
| UserEntity.User.SetPassword | library-management-system/src/main/java/com/library/service/UserService.java:102-110 | sets only the password |
| UserEntity.User.OnCreate | library-management-system/src/test/java/com/library/entity/UserTest.java:128-142 | both timestamps become the same instant |
| UserEntity.User.OnUpdate | library-management-system/src/test/java/com/library/entity/UserTest.java:144-159 | only updatedAt moves |
| UserEntity.EqualityScenario | library-management-system/src/test/java/com/library/entity/UserTest.java:161-195 | users with the same id and e-mail are equal and hash alike whatever their other fields; with the same id, they are equal only when their e-mails are equal |
| UserEntity.RoleAndActivationScenario | library-management-system/src/test/java/com/library/entity/UserTest.java:51-115 | exactly one of isStudent/isLibrarian holds, matching the role; deactivation makes the user inactive and locked; activation restores it; the username is the e-mail; the authority is ROLE_ plus the role |
| UserRepo.UserRepository.FindByEmail | library-management-system/src/main/java/com/library/repository/UserRepository.java:19-24 | finds a user exactly when one with that e-mail is stored, and returns the stored one |
| UserRepo.UserRepository.Insert | library-management-system/src/main/java/com/library/service/UserService.java:32-44 | saving a new user assigns the next id and adds it, keeping ids and e-mails unique |
| UserManagement.UserService.CreateUser | library-management-system/src/main/java/com/library/service/UserService.java:32-44 | fails with EmailTaken exactly when the e-mail is in use; otherwise stores a new active user with the given role and the encoded password under a fresh id, leaving the other users as they were |
| UserManagement.UserService.UpdateUser | library-management-system/src/main/java/com/library/service/UserService.java:89-97 | UserNotFound exactly when the id is absent; otherwise only that user's name and phone change |
| UserManagement.UserService.ChangePassword | library-management-system/src/main/java/com/library/service/UserService.java:102-110 | UserNotFound exactly when the id is absent; otherwise only that user's password changes, to the encoded one |
| UserManagement.UserService.ActivateUser | library-management-system/src/main/java/com/library/service/UserService.java:115-121 | UserNotFound exactly when the id is absent; otherwise only that user becomes active |
| UserManagement.UserService.DeactivateUser | library-management-system/src/main/java/com/library/service/UserService.java:126-132 | UserNotFound exactly when the id is absent; otherwise only that user becomes inactive |
| UserManagement.UserService.GetUserStatistics | library-management-system/src/main/java/com/library/service/UserService.java:162-177 | total is the number of users, totalActive the number of active users, students and librarians the number with each role, and inactive is total minus totalActive; so active never outnumbers all users, inactive is not negative, and students plus librarians make the total |
| UserManagement.UserService.InactiveIsCounted | library-management-system/src/main/java/com/library/service/UserService.java:162-177 | "inactive" (total minus active) is exactly the number of inactive users |
| UserManagement.UserService.GetRecentUsers | library-management-system/src/main/java/com/library/service/UserService.java:183-188 | a negative limit fails; otherwise the result is a prefix of the active listing, exactly min(limit, listing length) long, holding only active stored users |
| Authentication.ValidatePassword | library-management-system/src/main/java/com/library/service/AuthService.java:115-124 | a password passes exactly when it is present and at least 6 UTF-16 units long |
| Authentication.ValidateUserData | library-management-system/src/main/java/com/library/service/AuthService.java:96-110 | passes exactly when the name has 2 or more units, the e-mail contains '@', the password has 6 or more and the phone 10 or more; otherwise reports the first failing check in source order |
| Authentication.RegistrationCheck | library-management-system/src/main/java/com/library/service/AuthService.java:46-60 | the e-mail check comes first, then the field checks |
| Authentication.AuthService.Authenticate | library-management-system/src/main/java/com/library/service/AuthService.java:28-41 | succeeds exactly when a stored active user has that e-mail and the password matches; UserDisabled exactly when the user exists but is inactive; an unknown e-mail and a wrong password both give InvalidCredentials |
| Authentication.AuthService.FindByEmail | library-management-system/src/main/java/com/library/service/AuthService.java:66-69 | finds a user exactly when one with that e-mail is stored |
| Authentication.AuthService.Register | library-management-system/src/main/java/com/library/service/AuthService.java:46-60 | rejects exactly as RegistrationCheck does on the state before the call; on success stores an active STUDENT with the encoded password, and that user can then log in whenever the encoder matches its own encodings |
| Authentication.AuthService.ChangePassword | library-management-system/src/main/java/com/library/service/AuthService.java:74-83 | fails, changing nothing, when authentication with the current password fails or the new password is rejected; otherwise only that user's password changes, to the encoded new one |
| BookCatalogue.BlankIsTrimEmpty | library-management-system/src/main/java/com/library/service/BookService.java:185-203 | a field is blank exactly when it is absent or Java's trim leaves it empty |
| BookCatalogue.ValidateBook | library-management-system/src/main/java/com/library/service/BookService.java:185-203 | passes exactly when title, author and ISBN are not blank and the ISBN has 10 or 13 digits once non-digits are dropped; otherwise reports the first failing check in source order |
| BookCatalogue.IsbnSeparatorsIgnored | library-management-system/src/main/java/com/library/service/BookService.java:198-202 | adding digit-free separators to an ISBN does not change whether the book validates |
| BookCatalogue.BookService.CreateBook | library-management-system/src/main/java/com/library/service/BookService.java:54-62 | fails, changing nothing, on invalid data or an ISBN in use; otherwise stores the book under a fresh id and returns it |
| BookCatalogue.BookService.UpdateBook | library-management-system/src/main/java/com/library/service/BookService.java:67-86 | BookNotFound for an unknown id; IsbnTaken when the ISBN changes to one in use; a validation error otherwise; on success only that row changes, to the new data under the same id |
| BookCatalogue.BookService.DeleteBook | library-management-system/src/main/java/com/library/service/BookService.java:91-96 | BookNotFound exactly when the id is absent; otherwise removes exactly that row |
| BookCatalogue.BookService.MarkAsLoaned | library-management-system/src/main/java/com/library/service/BookService.java:159-169 | BookNotFound for an unknown id; AlreadyLoaned for an unavailable copy; otherwise only that book becomes unavailable |
| BookCatalogue.BookService.MarkAsAvailable | library-management-system/src/main/java/com/library/service/BookService.java:174-180 | BookNotFound exactly when the id is absent; otherwise only that book becomes available |
| BookCatalogue.BookService.SearchBooks | library-management-system/src/main/java/com/library/service/BookService.java:118-123 | a blank search gives every book; otherwise exactly the books whose title or author contains the trimmed term ignoring case, or whose ISBN contains it exactly |
| BookCatalogue.BookService.SearchIgnoresSurroundingSpace | library-management-system/src/main/java/com/library/service/BookService.java:118-123 | searching for a term and for its trimmed form give the same books |
| BookCatalogue.BookService.GetBookStatistics | library-management-system/src/main/java/com/library/service/BookService.java:129-145 | totalBooks is the number of books and availableBooks the number marked available; loanedBooks is total minus available, so not negative; the per-category map covers exactly the categories in use, and each entry is the number of books in that category, between 1 and the total |
| BookCatalogue.BookService.LoanedIsCounted | library-management-system/src/main/java/com/library/service/BookService.java:129-145 | "loanedBooks" (total minus available) is exactly the number of unavailable books |
| BookCatalogue.BookService.GetRecentBooks | library-management-system/src/main/java/com/library/service/BookService.java:151-154 | a negative limit fails; otherwise the result is the first min(limit, listing length) entries of the listing |
| Jwt.UserClaims | library-management-system/src/main/java/com/library/service/JwtService.java:29-37 | the extra claims are exactly userId, name, role and isActive, taken from the user |
| Jwt.BuildClaims | library-management-system/src/main/java/com/library/service/JwtService.java:49-57 | the subject is the e-mail; the issue time is now in whole seconds; the expiry is now plus the lifetime in whole seconds; the other extra claims are kept |
| Jwt.ExtractTokenFromHeader | library-management-system/src/main/java/com/library/service/JwtService.java:143-148 | a token exactly when the header starts with "Bearer ", and the header is that prefix followed by the token |
| Jwt.ExtractAfterPrefix | library-management-system/src/main/java/com/library/service/JwtService.java:143-148 | extracting from "Bearer " plus a token gives that token back |
| Jwt.JwtService.GenerateToken | library-management-system/src/main/java/com/library/service/JwtService.java:29-57 | the token signs the user's claims, subject, issue time and expiry |
| Jwt.JwtService.ExtractUsername | library-management-system/src/main/java/com/library/service/JwtService.java:62-64 | fails exactly when the token does not parse; otherwise gives its subject claim |
| Jwt.JwtService.IsTokenExpired | library-management-system/src/main/java/com/library/service/JwtService.java:110-130 | fails when the token does not parse or has no expiry; otherwise it is expired exactly when its expiry lies before now |
| Jwt.JwtService.IsTokenValidFor | library-management-system/src/main/java/com/library/service/JwtService.java:91-94 | valid for a user exactly when the subject is that user's e-mail and the token has not expired; the failure cases are those of parsing |
| Jwt.JwtService.IsTokenValid | library-management-system/src/main/java/com/library/service/JwtService.java:99-105 | never fails: valid exactly when the token parses, carries an expiry and now is not past it |
| Jwt.JwtService.IsValidAuthHeader | library-management-system/src/main/java/com/library/service/JwtService.java:153-156 | a valid header starts with "Bearer "; ValidAuthHeaderIff gives the exact condition |
| Jwt.JwtService.ValidAuthHeaderIff | library-management-system/src/main/java/com/library/service/JwtService.java:153-156 | a header is valid exactly when it carries a bearer token that parses and has not expired |
| Jwt.JwtService.ExpiryBoundary | library-management-system/src/main/java/com/library/service/JwtService.java:110-112 | a token is still valid at the exact millisecond of its expiry and invalid one millisecond later |
| Jwt.JwtService.IssuedTokenLifetime | library-management-system/src/main/java/com/library/service/JwtService.java:29-112 | if parsing a signed claim set gives it back, an issued token is valid for its user exactly up to its expiry, truncated to whole seconds; it is never valid for another e-mail; it is invalid once the lifetime has passed and valid from issue until 999 ms before the lifetime ends |
| Jwt.JwtService.DefaultLifetimeIsOneDay | library-management-system/src/main/java/com/library/service/JwtService.java:23-24 | with the default lifetime of 86400000 ms, an issued token is valid for its user from issue until 86399001 ms later and invalid once a full day has passed |
| JwtFilter.Decide | library-management-system/src/main/java/com/library/config/JwtAuthenticationFilter.java:34-106 | pass-through exactly when there is no bearer token; the debug print crashes exactly when the token is shorter than 20 units; authentication is installed exactly when the context is empty, the subject names a stored user and the token is valid for it |
| JwtFilter.DoFilterInternal | library-management-system/src/main/java/com/library/config/JwtAuthenticationFilter.java:34-106 | the chain runs once unless the debug print crashed; the context gains that user's authentication with its authorities exactly on Install; otherwise it is unchanged |
| JwtFilter.DeactivatedUserAuthenticated | library-management-system/src/main/java/com/library/config/JwtAuthenticationFilter.java:67-94 | a deactivated user with a still-valid token is installed, because the filter never checks isActive |
| BookForm.Prefill | library-dashboard/src/components/BookModal.js:13-23 | with no book the form is unchanged; otherwise missing or null fields give '' (or 'Programming' for the category) and a missing availability gives true |
| BookForm.ValidateForm | library-dashboard/src/components/BookModal.js:54-77 | an error key exactly for a blank title, a blank author, a blank or malformed ISBN, or an empty category, each with its message; valid exactly when there is no error |
| BookForm.HandleSubmit | library-dashboard/src/components/BookModal.js:79-85 | the form is saved exactly when it validates, and errors are shown otherwise |
| BookForm.HandleChange | library-dashboard/src/components/BookModal.js:38-52 | only the changed field takes the new value; an error on that field is cleared and the others are kept |
| BookForm.FormIsbnPassesServer | library-dashboard/src/components/BookModal.js:65-69 | every ISBN the form accepts has 13 digits and is not blank for the server |
| BookForm.FormBookPassesServer | library-dashboard/src/components/BookModal.js:54-85 | a form that validates, and whose title and author are not blank under Java's trim, is accepted by the server's validateBook |
| BookForm.ControlCharacterTitle | library-dashboard/src/components/BookModal.js:57-59 | a title made of one control character passes the form but the server rejects it with TitleRequired |
| BooksPage.FilterBooks | library-dashboard/src/pages/Books.js:31-50 | exactly the books matching the term and the status filter, each as many times as in the list; a blank term with status 'all' keeps the whole list |
| BooksPage.FilterBooksKeepsOrder | library-dashboard/src/pages/Books.js:31-50 | the filtered list is a subsequence of the books |
| BooksPage.RemoveBook | library-dashboard/src/pages/Books.js:62-66 | the list without that id, in order |
| BooksPage.RemoveBookCount | library-dashboard/src/pages/Books.js:62-66 | removing a present id shortens the list; removing an absent id changes nothing |
| BooksPage.ReplaceBook | library-dashboard/src/pages/Books.js:80-82 | same length; the rows with that id are replaced and the others kept |
| BooksPage.PrependBook | library-dashboard/src/pages/Books.js:87 | the new book comes first, then the old list |
| BooksPage.DeleteUndoesCreate | library-dashboard/src/pages/Books.js:62-87 | deleting a just-created book whose id is new gives back the list as it was |
| BooksPage.StatCards | library-dashboard/src/pages/Books.js:137-181 | available plus loaned is the total, and the category count is at most the total and at least 1 when there are books |
| UsersPage.SearchUsers | library-dashboard/src/pages/Users.js:15-26 | a blank term keeps every user; otherwise exactly the users whose name or e-mail contains the untrimmed term, ignoring case, each as many times as in the list |
| UsersPage.SearchUsersKeepsOrder | library-dashboard/src/pages/Users.js:15-26 | the search result is a subsequence of the users |
| UsersPage.FormatPhone | library-dashboard/src/pages/Users.js:65-73 | '-' for a missing or empty phone; "(dd) ddddd-dddd" when there are exactly 11 digits; otherwise the phone unchanged |
| UsersPage.FormatPhoneKeepsDigits | library-dashboard/src/pages/Users.js:65-73 | formatting keeps the digits of the phone |
| UsersPage.FormatPhoneIdempotent | library-dashboard/src/pages/Users.js:65-73 | formatting a formatted phone changes nothing |
| UsersPage.AvatarInitials | library-dashboard/src/pages/Users.js:208 | a missing name shows nothing; otherwise the navbar's initials, without its 'U' fallback |
| UsersPage.StatCards | library-dashboard/src/pages/Users.js:115-161 | active users and each role count stay within the total, and students plus librarians never exceed it |
| Navbar.Initials | library-dashboard/src/components/Navbar.js:4-11 | the upper-cased first characters of the first two space-separated pieces |
| Navbar.InitialsLength | library-dashboard/src/components/Navbar.js:4-11 | the initials have at most 4 characters, and at most 2 when there is no ß |
| Navbar.UserInitials | library-dashboard/src/components/Navbar.js:4-11 | never empty: 'U' when there is no name or it yields no initials, the initials otherwise |
| Navbar.EmptyNameShowsU | library-dashboard/src/components/Navbar.js:4-11 | an empty name shows 'U' |
| Navbar.TwoWords | library-dashboard/src/components/Navbar.js:4-11 | for "first second ...", the initials are the upper-cased first letters of the first two words |
| Navbar.DoubleSpace | library-dashboard/src/components/Navbar.js:4-11 | with two spaces after the first word, only that word's letter shows |
| Navbar.SharpSInitials | library-dashboard/src/components/Navbar.js:4-11 | "ßa ßb" gives the four-letter initials "SSSS" |
| Navbar.FormatRole | library-dashboard/src/components/Navbar.js:13-22 | STUDENT shows "Estudante", LIBRARIAN shows "Bibliotecário", any other role shows as it is |
| Navbar.FormatRoleIdempotent | library-dashboard/src/pages/Users.js:54-63 | formatting a formatted role changes nothing, and the two roles get different labels |

## Left out

- Controllers, `App.js`, `Login.js`, `Reports.js` and `api.js`: HTTP wiring and rendering, outside the modelled core.
- `entity/User.java` and `entity/Book.java` are not part of this model. The user entity follows what `UserTest.java` asserts. A book is a value in the catalogue map, so the aliasing of JPA-managed book objects is not modelled.
- The database: transactions, concurrency and the `@Transactional` boundaries are not modelled. Each operation runs alone on the in-memory maps. `save` of a new row always assigns the next id.
- BookCatalogue.BookService.SearchBooks: the SQL `LIKE` treats `%` and `_` in the term as wildcards; the model matches them literally.
- BookCatalogue.BookService.GetBookStatistics: the `ORDER BY` of the category query is not modelled; the counts are a map.
- BookCatalogue.BookService.GetRecentBooks: the database ordering (`ORDER BY createdAt DESC`) comes in as a listing argument.
- UserManagement.UserService.GetRecentUsers: the same, for `findByIsActiveTrueOrderByCreatedAtDesc`.
- Simple delegating finders (`findAllBooks`, `findBookById`, `findActiveUsers`, `countActiveUsers` and the like) are not separate members. Their queries appear as the sets and counts the modelled operations use.
- BCrypt is the pair of functions `encode`/`matches`. Its random salt is not modelled.
- Jwt.JwtService.GenerateToken: the jjwt library's signing and parsing are the parameters `sign` and `parse`. HMAC-SHA256, Base64 and the secret key are not modelled.
- jjwt's own rejection of expired tokens while parsing (`ExpiredJwtException`) is not modelled separately. Every caller in the core treats it as it treats an expired token.
- Jwt.JwtService.ExtractUsername: the claims `extractUserId` and `extractRole` read are kept in the claim set but have no accessor of their own.
- JwtFilter.DoFilterInternal: the debug `System.out` lines and the `loadUserByUsername` call through `UserService` are not modelled, except for the debug print's substring crash on short tokens. The user lookup goes straight to the repository's e-mail index.
- Text: Unicode case mapping is modelled only for ASCII and Latin-1 letters. UTF-16 surrogate pairs are counted by `Utf16Length`, but `word[0]` in the initials takes a whole character rather than half a pair.
- BookCatalogue.ValidateBook: a `null` Boolean `available` on the server is not modelled; availability is a plain boolean.
- BookForm.HandleChange: an event whose input type does not match its field (a checkbox named `title`) cannot be expressed.
- Loan and reservation `onCreate`/`onUpdate` timestamps and the `equals`/`hashCode`/`toString` of those entities are not modelled. They do not take part in any stated property.
- Jwt.BuildClaims: `buildToken` reads `System.currentTimeMillis()` twice, once for the issue time and once for the expiry; the model reads one instant, so it does not capture an expiry one second later than issue time plus lifetime when the clock crosses a second between the two reads.
- UserManagement.UserService.CreateUser, Authentication.AuthService.Register and the user mutators do not run `OnCreate`/`OnUpdate`, which JPA fires on `save`: a stored user in the model carries no timestamps, and no service contract says anything about `createdAt` or `updatedAt`.
