/**
 * The Loan entity (entity/Loan.java): a loan of one book to one user, with a
 * due date, a return stamp and at most two renewals.
 * `LocalDateTime.now()` is the explicit parameter `now`.
 */
module LoanEntity {
  import opened Wrappers

  /** An instant on the server clock (a `LocalDateTime`). */
  type Instant = int

  /** The renewal cap hard-coded in `canRenew`. */
  const MaxRenewals: int := 2

  /** `renew` on a loan that `canRenew` refuses throws IllegalStateException. */
  datatype LoanError = CannotRenew

  class Loan {
    var id: Option<int>
    var userId: int
    var bookId: int
    var loanDate: Instant
    var dueDate: Instant
    var returnDate: Option<Instant>
    var returned: bool
    var renewed: bool
    var renewalCount: int

    /** What the constructor establishes and every business method keeps:
        at most two renewals, `renewed` records whether one happened, and a
        returned loan carries its return stamp. */
    ghost predicate Valid()
      reads this
    {
      && 0 <= renewalCount <= MaxRenewals
      && (renewed <==> renewalCount > 0)
      && (returned ==> returnDate.Some?)
    }

    constructor (userId: int, bookId: int, loanDate: Instant, dueDate: Instant)
      ensures Valid()
      ensures this.userId == userId && this.bookId == bookId
      ensures this.loanDate == loanDate && this.dueDate == dueDate
      ensures !returned && !renewed && renewalCount == 0
      ensures id == None && returnDate == None
    {
      id := None;
      this.userId := userId;
      this.bookId := bookId;
      this.loanDate := loanDate;
      this.dueDate := dueDate;
      returnDate := None;
      returned := false;
      renewed := false;
      renewalCount := 0;
    }

    /** `isOverdue`: not returned and the clock is strictly past the due date. */
    predicate IsOverdue(now: Instant)
      reads this
    {
      !returned && now > dueDate
    }

    /** `canRenew`: not returned and fewer than two renewals so far. */
    predicate CanRenew()
      reads this
    {
      !returned && renewalCount < MaxRenewals
    }

    /** Once overdue, a loan stays overdue until it is returned; an overdue
        loan is an open one. */
    lemma OverdueIsPermanent(now: Instant, later: Instant)
      requires now <= later
      ensures IsOverdue(now) ==> IsOverdue(later) && !returned
      ensures IsOverdue(now) && renewalCount < MaxRenewals ==> CanRenew()
    {
    }

    /** `returnBook`: unguarded; a second call keeps `returned` and re-stamps `returnDate`. */
    method ReturnBook(now: Instant)
      modifies this
      ensures returned && returnDate == Some(now)
      ensures !CanRenew() && forall t :: !IsOverdue(t)
      ensures id == old(id) && userId == old(userId) && bookId == old(bookId)
      ensures loanDate == old(loanDate) && dueDate == old(dueDate)
      ensures renewed == old(renewed) && renewalCount == old(renewalCount)
      ensures old(Valid()) ==> Valid()
    {
      returned := true;
      returnDate := Some(now);
    }

    /** `renew`: a permitted renewal moves the due date and counts itself;
        a refused one throws and changes nothing. */
    method Renew(newDueDate: Instant) returns (r: Outcome<LoanError>)
      modifies this
      ensures r.Pass? <==> old(CanRenew())
      ensures r.Pass? ==> dueDate == newDueDate && renewed && renewalCount == old(renewalCount) + 1
      ensures r.Pass? ==> id == old(id) && userId == old(userId) && bookId == old(bookId)
      ensures r.Pass? ==> loanDate == old(loanDate) && returnDate == old(returnDate) && returned == old(returned)
      ensures r.Fail? ==> r.error == CannotRenew && unchanged(this)
      ensures old(Valid()) ==> Valid()
    {
      if !CanRenew() {
        return Fail(CannotRenew);
      }
      dueDate := newDueDate;
      renewed := true;
      renewalCount := renewalCount + 1;
      r := Pass;
    }
  }

  /** From construction, two renewals succeed and the third is refused,
      whatever due dates are asked for. */
  method RenewalCap(userId: int, bookId: int, loanDate: Instant, dueDate: Instant,
                    d1: Instant, d2: Instant, d3: Instant)
    returns (first: Outcome<LoanError>, second: Outcome<LoanError>, third: Outcome<LoanError>, count: int)
    ensures first == Pass && second == Pass && third == Fail(CannotRenew)
    ensures count == MaxRenewals
  {
    var loan := new Loan(userId, bookId, loanDate, dueDate);
    first := loan.Renew(d1);
    second := loan.Renew(d2);
    third := loan.Renew(d3);
    count := loan.renewalCount;
  }

  /** A returned loan can no longer be renewed, whatever its renewal count. */
  method RenewAfterReturn(userId: int, bookId: int, loanDate: Instant, dueDate: Instant,
                          returnedAt: Instant, d: Instant)
    returns (r: Outcome<LoanError>, overdueLater: bool)
    ensures r == Fail(CannotRenew)
    ensures !overdueLater
  {
    var loan := new Loan(userId, bookId, loanDate, dueDate);
    loan.ReturnBook(returnedAt);
    r := loan.Renew(d);
    overdueLater := loan.IsOverdue(dueDate + 1);
  }
}
