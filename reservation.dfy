/**
 * The Reservation entity (entity/Reservation.java): a user's hold on a book
 * until an expiry date, with `active` and `notified` flags.
 * `LocalDateTime.now()` is the explicit parameter `now`.
 */
module ReservationEntity {
  import opened Wrappers

  /** An instant on the server clock (a `LocalDateTime`). */
  type Instant = int

  class Reservation {
    var id: Option<int>
    var userId: int
    var bookId: int
    var reservationDate: Instant
    var expiryDate: Instant
    var active: bool
    var notified: bool

    constructor (userId: int, bookId: int, reservationDate: Instant, expiryDate: Instant)
      ensures active && !notified
      ensures this.userId == userId && this.bookId == bookId
      ensures this.reservationDate == reservationDate && this.expiryDate == expiryDate
      ensures id == None
    {
      id := None;
      this.userId := userId;
      this.bookId := bookId;
      this.reservationDate := reservationDate;
      this.expiryDate := expiryDate;
      active := true;
      notified := false;
    }

    /** `isExpired`: the clock is strictly past the expiry date. */
    predicate IsExpired(now: Instant)
      reads this
    {
      now > expiryDate
    }

    /** `shouldExpire`: still active and already expired. */
    predicate ShouldExpire(now: Instant)
      reads this
    {
      active && IsExpired(now)
    }

    /** Expiry is permanent: once past the expiry date, every later instant is
        too, and an active reservation that should expire still should later. */
    lemma ExpiryIsPermanent(now: Instant, later: Instant)
      requires now <= later
      ensures IsExpired(now) ==> IsExpired(later)
      ensures ShouldExpire(now) ==> ShouldExpire(later)
      ensures ShouldExpire(now) ==> active
    {
    }

    /** `cancel`: deactivates; on an inactive reservation it changes nothing. */
    method Cancel()
      modifies this
      ensures !active
      ensures forall t :: !ShouldExpire(t)
      ensures old(!active) ==> unchanged(this)
      ensures id == old(id) && userId == old(userId) && bookId == old(bookId)
      ensures reservationDate == old(reservationDate) && expiryDate == old(expiryDate)
      ensures notified == old(notified)
    {
      active := false;
    }

    /** `markAsNotified`: sets `notified` only; never reactivates. */
    method MarkAsNotified()
      modifies this
      ensures notified
      ensures old(notified) ==> unchanged(this)
      ensures id == old(id) && userId == old(userId) && bookId == old(bookId)
      ensures reservationDate == old(reservationDate) && expiryDate == old(expiryDate)
      ensures active == old(active)
    {
      notified := true;
    }

    /** `setActive`: the raw setter, the only member that can turn `active` back on. */
    method SetActive(active: bool)
      modifies this
      ensures this.active == active
      ensures id == old(id) && userId == old(userId) && bookId == old(bookId)
      ensures reservationDate == old(reservationDate) && expiryDate == old(expiryDate)
      ensures notified == old(notified)
    {
      this.active := active;
    }
  }

  /** A new reservation should expire exactly at the instants strictly after its
      expiry date; once cancelled, at none, and notifying it does not revive it. */
  method ExpiryLifecycle(userId: int, bookId: int, reservationDate: Instant, expiryDate: Instant, now: Instant)
    returns (before: bool, afterCancel: bool, afterNotify: bool)
    ensures before <==> now > expiryDate
    ensures !afterCancel && !afterNotify
  {
    var r := new Reservation(userId, bookId, reservationDate, expiryDate);
    before := r.ShouldExpire(now);
    r.Cancel();
    afterCancel := r.ShouldExpire(now);
    r.MarkAsNotified();
    afterNotify := r.ShouldExpire(now);
  }
}
