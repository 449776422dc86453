/**
 * The clinic's booking store: the `bookings` table with its AUTOINCREMENT
 * key and the `admin_logs` audit table, held in memory.
 *
 * SQLite's AUTOINCREMENT hands out one more than the largest key it has
 * ever issued, even when that row has since been deleted; `lastId` is that
 * high-water mark. Every text column is free text, so a status is a string
 * (the admin dashboard only ever offers four of them).
 */
module BookingStore {

  /** The status every newly added booking gets. */
  const Confirmed := "Confirmed"

  /** `booking_type` when the caller gives none. */
  const DefaultBookingType := "Dental Consultation"

  /** `admin` when the caller gives none. */
  const DefaultAdmin := "Admin"

  datatype Booking = Booking(
    id: int,
    name: string,
    email: string,
    date: string,
    time: string,
    bookingType: string,
    status: string)

  /** One `admin_logs` row; `bookingId` is whatever id the admin acted on. */
  datatype LogEntry = LogEntry(id: int, action: string, bookingId: int, performedBy: string)

  datatype Store = Store(rows: map<int, Booking>, lastId: nat, log: seq<LogEntry>)

  /** The tables as `init_db` leaves them on first start. */
  const EmptyStore := Store(map[], 0, [])

  /**
   * Every row sits under its own id, which the counter has already issued,
   * and the audit log is numbered 1, 2, 3, ... in insertion order.
   */
  ghost predicate Valid(s: Store) {
    && (forall id :: id in s.rows ==> 1 <= id <= s.lastId && s.rows[id].id == id)
    && (forall i :: 0 <= i < |s.log| ==> s.log[i].id == i + 1)
  }

  /** The audit text `update_booking_status` writes. */
  function StatusChangedText(status: string): string {
    "Status changed to " + status
  }

  /** The audit text `delete_booking` writes. */
  const DeletedText := "Booking deleted"

  /** Appends one audit row; its id is the log table's next AUTOINCREMENT key. */
  function Audit(log: seq<LogEntry>, action: string, bookingId: int, admin: string): (r: seq<LogEntry>)
    ensures |r| == |log| + 1 && r[..|log|] == log
    ensures r[|log|].action == action && r[|log|].bookingId == bookingId && r[|log|].performedBy == admin
    ensures (forall i :: 0 <= i < |log| ==> log[i].id == i + 1) ==> forall i :: 0 <= i < |r| ==> r[i].id == i + 1
  {
    log + [LogEntry(|log| + 1, action, bookingId, admin)]
  }

  /**
   * `add_booking`: inserts a Confirmed row under the next id and returns the
   * id. The audit log is untouched and no other row changes.
   */
  function AddBooking(s: Store, name: string, email: string, date: string, time: string,
                      bookingType: string): (r: (Store, nat))
    ensures r.1 == s.lastId + 1 && r.0.lastId == r.1
    ensures r.1 in r.0.rows
    ensures r.0.rows[r.1] == Booking(r.1, name, email, date, time, bookingType, Confirmed)
    ensures forall k :: k != r.1 ==> (k in r.0.rows <==> k in s.rows)
    ensures forall k :: k in s.rows && k != r.1 ==> r.0.rows[k] == s.rows[k]
    ensures r.0.log == s.log
  {
    var id := s.lastId + 1;
    (s.(rows := s.rows[id := Booking(id, name, email, date, time, bookingType, Confirmed)], lastId := id), id)
  }

  /**
   * `update_booking_status`: the row with that id, if any, gets the new
   * status and nothing else of it changes; one audit row is appended whether
   * or not the row exists.
   */
  function UpdateStatus(s: Store, bookingId: int, newStatus: string, admin: string): (r: Store)
    ensures forall k :: k in r.rows <==> k in s.rows
    ensures forall k :: k in s.rows && k != bookingId ==> r.rows[k] == s.rows[k]
    ensures bookingId in s.rows ==> r.rows[bookingId] == s.rows[bookingId].(status := newStatus)
    ensures r.lastId == s.lastId
    ensures |r.log| == |s.log| + 1 && r.log[..|s.log|] == s.log
    ensures r.log[|s.log|].action == StatusChangedText(newStatus)
    ensures r.log[|s.log|].bookingId == bookingId && r.log[|s.log|].performedBy == admin
  {
    var rows := if bookingId in s.rows then s.rows[bookingId := s.rows[bookingId].(status := newStatus)] else s.rows;
    Store(rows, s.lastId, Audit(s.log, StatusChangedText(newStatus), bookingId, admin))
  }

  /**
   * `delete_booking`: the row with that id, if any, disappears and nothing
   * else changes; one audit row is appended whether or not the row existed.
   * The counter is not wound back.
   */
  function DeleteBooking(s: Store, bookingId: int, admin: string): (r: Store)
    ensures forall k :: k in r.rows <==> k in s.rows && k != bookingId
    ensures forall k :: k in r.rows ==> r.rows[k] == s.rows[k]
    ensures r.lastId == s.lastId
    ensures |r.log| == |s.log| + 1 && r.log[..|s.log|] == s.log
    ensures r.log[|s.log|].action == DeletedText
    ensures r.log[|s.log|].bookingId == bookingId && r.log[|s.log|].performedBy == admin
  {
    Store(s.rows - {bookingId}, s.lastId, Audit(s.log, DeletedText, bookingId, admin))
  }

  // ---------------------------------------------------------------------------
  // Invariant and freshness
  // ---------------------------------------------------------------------------

  lemma EmptyStoreValid()
    ensures Valid(EmptyStore)
  {
  }

  /** Each operation keeps the store well formed. */
  lemma OperationsPreserveValid(s: Store, bookingId: int, text: string, admin: string,
                                name: string, email: string, date: string, time: string)
    requires Valid(s)
    ensures Valid(AddBooking(s, name, email, date, time, text).0)
    ensures Valid(UpdateStatus(s, bookingId, text, admin))
    ensures Valid(DeleteBooking(s, bookingId, admin))
  {
  }

  /**
   * A new booking's id is larger than every id in the table, so it never
   * overwrites a row, and the table grows by exactly one.
   */
  lemma AddIsFresh(s: Store, name: string, email: string, date: string, time: string, bookingType: string)
    requires Valid(s)
    ensures forall k :: k in s.rows ==> k < AddBooking(s, name, email, date, time, bookingType).1
    ensures |AddBooking(s, name, email, date, time, bookingType).0.rows| == |s.rows| + 1
  {
    var r := AddBooking(s, name, email, date, time, bookingType);
    assert r.0.rows.Keys == s.rows.Keys + {r.1};
  }

  /**
   * Ids are never reused: after a delete, the next booking still gets an id
   * larger than the deleted one.
   */
  lemma DeletedIdNotReused(s: Store, bookingId: int, admin: string,
                           name: string, email: string, date: string, time: string, bookingType: string)
    requires Valid(s) && bookingId in s.rows
    ensures AddBooking(DeleteBooking(s, bookingId, admin), name, email, date, time, bookingType).1 > bookingId
  {
  }

  /** Setting the same status twice leaves the same rows as setting it once; only the log differs. */
  lemma UpdateStatusIdempotentOnRows(s: Store, bookingId: int, status: string, admin: string)
    ensures UpdateStatus(UpdateStatus(s, bookingId, status, admin), bookingId, status, admin).rows
         == UpdateStatus(s, bookingId, status, admin).rows
  {
  }

  // ---------------------------------------------------------------------------
  // The audit trail over a session of admin actions
  // ---------------------------------------------------------------------------

  /** What an admin can do from the dashboard. */
  datatype AdminAction =
    | SetStatus(bookingId: int, status: string, admin: string)
    | Remove(bookingId: int, admin: string)

  function Perform(s: Store, a: AdminAction): Store {
    match a
    case SetStatus(id, status, admin) => UpdateStatus(s, id, status, admin)
    case Remove(id, admin) => DeleteBooking(s, id, admin)
  }

  function PerformAll(s: Store, actions: seq<AdminAction>): Store
    decreases |actions|
  {
    if actions == [] then s else PerformAll(Perform(s, actions[0]), actions[1..])
  }

  function TargetOf(a: AdminAction): int {
    match a
    case SetStatus(id, _, _) => id
    case Remove(id, _) => id
  }

  /**
   * The audit log is append-only and records the admin actions one for one,
   * in order, each with the id it targeted; the id counter never moves.
   */
  lemma {:induction false} AuditTrailComplete(s: Store, actions: seq<AdminAction>)
    ensures var r := PerformAll(s, actions);
      && |r.log| == |s.log| + |actions|
      && r.log[..|s.log|] == s.log
      && (forall i :: 0 <= i < |actions| ==> r.log[|s.log| + i].bookingId == TargetOf(actions[i]))
      && r.lastId == s.lastId
    decreases |actions|
  {
    if actions != [] {
      var s1 := Perform(s, actions[0]);
      AuditTrailComplete(s1, actions[1..]);
      var r := PerformAll(s, actions);
      assert r == PerformAll(s1, actions[1..]);
      assert r.log[..|s1.log|] == s1.log;
      assert r.log[..|s.log|] == r.log[..|s1.log|][..|s.log|];
      forall i | 0 <= i < |actions|
        ensures r.log[|s.log| + i].bookingId == TargetOf(actions[i])
      {
        if i == 0 {
          assert r.log[|s.log|] == r.log[..|s1.log|][|s.log|];
        } else {
          assert actions[i] == actions[1..][i - 1];
        }
      }
    }
  }

  /** Admin actions never create rows and never change a row they do not target. */
  lemma {:induction false} AdminActionsOnlyTouchTargets(s: Store, actions: seq<AdminAction>, k: int)
    requires forall i :: 0 <= i < |actions| ==> TargetOf(actions[i]) != k
    ensures k in PerformAll(s, actions).rows <==> k in s.rows
    ensures k in s.rows ==> PerformAll(s, actions).rows[k] == s.rows[k]
    decreases |actions|
  {
    if actions != [] {
      assert TargetOf(actions[0]) != k;
      AdminActionsOnlyTouchTargets(Perform(s, actions[0]), actions[1..], k);
    }
  }
}
