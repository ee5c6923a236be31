/**
 * The data model of the booking application and the validation gate every write goes
 * through: Booking.clean decides whether a candidate booking may be stored, checking its
 * rules one after another and reporting the first one that fails; Booking.save stores the
 * candidate only when clean accepts it.
 *
 * Timestamps are whole seconds; `now` is a parameter, since the source reads the clock.
 */
module Models {
  import opened Wrappers
  import opened Text

  const SecondsPerHour: int := 3600
  /** The one room status under which bookings are accepted. */
  const Available: string := "AVAILABLE"

  /** A room, as far as the booking rules read it (its id is its key in the store). */
  datatype Room = Room(maxHours: int, status: string)

  /** A stored booking row. */
  datatype Booking = Booking(id: nat, roomId: nat, userId: nat, start: int, end: int)

  /**
   * A booking about to be validated: a new one (pk None) or an edit of a stored one.
   * Any field may be missing, exactly as on an unsaved model instance.
   */
  datatype Candidate = Candidate(
    pk: Option<nat>,
    roomId: Option<nat>,
    userId: Option<nat>,
    start: Option<int>,
    end: Option<int>)

  datatype ValidationError =
    | TimesRequired
    | EndNotAfterStart
    | RoomRequired
    | UserRequired
    | RoomDoesNotExist
    | DurationExceeded(maxHours: int)
    | RoomUnavailable
    | SlotOverlap
    | ActiveBookingExists

  datatype Verdict = Accepted | Rejected(error: ValidationError)

  /** The text the source attaches to each failure. */
  function Message(e: ValidationError): string
  {
    match e
    case TimesRequired => "Start time and end time are required."
    case EndNotAfterStart => "End time must be after start time."
    case RoomRequired => "Room is required for booking."
    case UserRequired => "User is required for booking."
    case RoomDoesNotExist => "Room matching query does not exist."
    case DurationExceeded(h) => "You can only book up to " + IntText(h) + " hour(s) per booking."
    case RoomUnavailable => "This room is currently unavailable for booking."
    case SlotOverlap => "This time slot overlaps with another booking."
    case ActiveBookingExists => "You already have an active or upcoming booking for this room."
  }

  /** A foreign key counts as given when it is neither None nor 0 (Python truthiness). */
  predicate IsSet(id: Option<nat>) { id.Some? && id.value != 0 }

  predicate HasTimes(c: Candidate) { c.start.Some? && c.end.Some? }

  /** The stored row is the candidate itself (`exclude(pk=self.pk)`; a None pk excludes nothing). */
  predicate IsSelf(c: Candidate, b: Booking) { c.pk == Some(b.id) }

  /** Half-open intervals [b.start, b.end) and [start, end) share an instant. */
  predicate Overlaps(b: Booking, start: int, end: int) { b.start < end && b.end > start }

  /** Another row on the candidate's room whose slot overlaps the candidate's. */
  predicate Clashes(c: Candidate, b: Booking)
    requires c.roomId.Some? && HasTimes(c)
  {
    b.roomId == c.roomId.value && !IsSelf(c, b) && Overlaps(b, c.start.value, c.end.value)
  }

  /** Another row of the same user on the same room that has not ended by `now`. */
  predicate ActiveFor(c: Candidate, b: Booking, now: int)
    requires c.roomId.Some? && c.userId.Some?
  {
    b.roomId == c.roomId.value && b.userId == c.userId.value && b.end >= now && !IsSelf(c, b)
  }

  /**
   * Booking.clean: the checks in source order, the first failing one deciding the error.
   * Reading the room of a dangling room id raises the ORM's does-not-exist error, which is
   * why RoomDoesNotExist sits between the user check and the duration check.
   */
  function Clean(c: Candidate, rooms: map<nat, Room>, rows: seq<Booking>, now: int): (v: Verdict)
    ensures v.Rejected? ==> !Satisfies(RuleOf(v.error), c, rooms, rows, now)
    ensures v.Accepted? <==> forall r: Rule :: Satisfies(r, c, rooms, rows, now)
    ensures v.Rejected? ==>
      forall r: Rule :: Order(r) < Order(RuleOf(v.error)) ==> Satisfies(r, c, rooms, rows, now)
    ensures v.Rejected? && v.error.DurationExceeded? ==>
      c.roomId.Some? && c.roomId.value in rooms && v.error.maxHours == rooms[c.roomId.value].maxHours
  {
    if !HasTimes(c) then Rejected(TimesRequired)
    else if c.end.value <= c.start.value then Rejected(EndNotAfterStart)
    else if !IsSet(c.roomId) then Rejected(RoomRequired)
    else if !IsSet(c.userId) then Rejected(UserRequired)
    else if c.roomId.value !in rooms then Rejected(RoomDoesNotExist)
    else
      var room := rooms[c.roomId.value];
      if c.end.value - c.start.value > room.maxHours * SecondsPerHour then Rejected(DurationExceeded(room.maxHours))
      else if room.status != Available then Rejected(RoomUnavailable)
      else if exists b :: b in rows && Clashes(c, b) then Rejected(SlotOverlap)
      else if exists b :: b in rows && ActiveFor(c, b, now) then Rejected(ActiveBookingExists)
      else Accepted
  }

  /** The rules of the gate, each stated on its own, independently of the checking order. */
  datatype Rule =
    | TimesGiven | EndAfterStart | RoomGiven | UserGiven | RoomFound
    | WithinMaxHours | RoomAvailable | SlotFree | NoOtherActiveBooking

  /** The position at which the gate checks a rule. */
  function Order(r: Rule): nat
  {
    match r
    case TimesGiven => 0
    case EndAfterStart => 1
    case RoomGiven => 2
    case UserGiven => 3
    case RoomFound => 4
    case WithinMaxHours => 5
    case RoomAvailable => 6
    case SlotFree => 7
    case NoOtherActiveBooking => 8
  }

  /** The rule whose failure an error reports. */
  function RuleOf(e: ValidationError): Rule
  {
    match e
    case TimesRequired => TimesGiven
    case EndNotAfterStart => EndAfterStart
    case RoomRequired => RoomGiven
    case UserRequired => UserGiven
    case RoomDoesNotExist => RoomFound
    case DurationExceeded(_) => WithinMaxHours
    case RoomUnavailable => RoomAvailable
    case SlotOverlap => SlotFree
    case ActiveBookingExists => NoOtherActiveBooking
  }

  /** Whether a candidate meets one rule; a rule about fields that are missing holds vacuously. */
  predicate Satisfies(r: Rule, c: Candidate, rooms: map<nat, Room>, rows: seq<Booking>, now: int)
  {
    match r
    case TimesGiven => HasTimes(c)
    case EndAfterStart => HasTimes(c) ==> c.start.value < c.end.value
    case RoomGiven => IsSet(c.roomId)
    case UserGiven => IsSet(c.userId)
    case RoomFound => c.roomId.Some? ==> c.roomId.value in rooms
    case WithinMaxHours =>
      HasTimes(c) && c.roomId.Some? && c.roomId.value in rooms ==>
        c.end.value - c.start.value <= rooms[c.roomId.value].maxHours * SecondsPerHour
    case RoomAvailable =>
      c.roomId.Some? && c.roomId.value in rooms ==> rooms[c.roomId.value].status == Available
    case SlotFree =>
      HasTimes(c) && c.roomId.Some? ==> forall b :: b in rows ==> !Clashes(c, b)
    case NoOtherActiveBooking =>
      c.roomId.Some? && c.userId.Some? ==> forall b :: b in rows ==> !ActiveFor(c, b, now)
  }

  // ---------------------------------------------------------------------------------------
  // Properties of the gate, one per rule, each stated directly on the inputs.

  /** Missing times are reported before anything else is looked at. */
  lemma MissingTimesReportedFirst(c: Candidate, rooms: map<nat, Room>, rows: seq<Booking>, now: int)
    requires c.start.None? || c.end.None?
    ensures Clean(c, rooms, rows, now) == Rejected(TimesRequired)
  {
  }

  /** An empty or reversed interval is reported before the room, user and duration checks. */
  lemma ReversedIntervalReportedSecond(c: Candidate, rooms: map<nat, Room>, rows: seq<Booking>, now: int)
    requires HasTimes(c) && c.end.value <= c.start.value
    ensures Clean(c, rooms, rows, now) == Rejected(EndNotAfterStart)
  {
  }

  /** The facts the rules before the duration check establish. */
  predicate ReachesDurationCheck(c: Candidate, rooms: map<nat, Room>)
  {
    HasTimes(c) && c.start.value < c.end.value && IsSet(c.roomId) && IsSet(c.userId)
    && c.roomId.value in rooms
  }

  /**
   * Past the earlier rules, a booking is rejected for its length exactly when it is longer
   * than the room's max_hours hours, so a booking of exactly the limit passes; the message
   * then carries the room's limit.
   */
  lemma DurationLimitIsInclusive(c: Candidate, rooms: map<nat, Room>, rows: seq<Booking>, now: int)
    requires ReachesDurationCheck(c, rooms)
    ensures var limit := rooms[c.roomId.value].maxHours;
      Clean(c, rooms, rows, now) == Rejected(DurationExceeded(limit))
      <==> c.end.value - c.start.value > limit * 3600
    ensures var limit := rooms[c.roomId.value].maxHours;
      Clean(c, rooms, rows, now) == Rejected(DurationExceeded(limit)) ==>
        IsSubstring(IntText(limit), Message(Clean(c, rooms, rows, now).error))
  {
    var limit := rooms[c.roomId.value].maxHours;
    var m := Message(DurationExceeded(limit));
    var prefix := "You can only book up to ";
    assert m[|prefix|..|prefix| + |IntText(limit)|] == IntText(limit);
    assert OccursAt(IntText(limit), m, |prefix|);
  }

  /** A room that is not AVAILABLE turns every booking of an allowed length away, free slot or not. */
  lemma UnavailableRoomRejected(c: Candidate, rooms: map<nat, Room>, rows: seq<Booking>, now: int)
    requires ReachesDurationCheck(c, rooms)
    requires c.end.value - c.start.value <= rooms[c.roomId.value].maxHours * SecondsPerHour
    requires rooms[c.roomId.value].status != Available
    ensures Clean(c, rooms, rows, now) == Rejected(RoomUnavailable)
  {
  }

  /** The facts the rules before the overlap check establish. */
  predicate ReachesOverlapCheck(c: Candidate, rooms: map<nat, Room>)
  {
    ReachesDurationCheck(c, rooms)
    && c.end.value - c.start.value <= rooms[c.roomId.value].maxHours * SecondsPerHour
    && rooms[c.roomId.value].status == Available
  }

  /** Any other row on the same room sharing an instant with the candidate rejects it. */
  lemma OverlapRejected(c: Candidate, rooms: map<nat, Room>, rows: seq<Booking>, now: int, b: Booking)
    requires ReachesOverlapCheck(c, rooms)
    requires b in rows && b.roomId == c.roomId.value && c.pk != Some(b.id)
    requires b.start < c.end.value && b.end > c.start.value
    ensures Clean(c, rooms, rows, now) == Rejected(SlotOverlap)
  {
    assert Clashes(c, b);
  }

  /** Past the overlap check, another live row of the same user on the same room rejects it. */
  lemma ActiveBookingRejected(c: Candidate, rooms: map<nat, Room>, rows: seq<Booking>, now: int, b: Booking)
    requires ReachesOverlapCheck(c, rooms)
    requires forall x :: x in rows ==> !Clashes(c, x)
    requires b in rows && b.roomId == c.roomId.value && b.userId == c.userId.value
    requires b.end >= now && c.pk != Some(b.id)
    ensures Clean(c, rooms, rows, now) == Rejected(ActiveBookingExists)
  {
    assert ActiveFor(c, b, now);
  }

  /** A row that neither clashes with the candidate nor is a live row of its user changes nothing. */
  lemma UnrelatedRowIgnored(c: Candidate, rooms: map<nat, Room>, rows: seq<Booking>, now: int, b: Booking)
    requires HasTimes(c) && c.roomId.Some? && c.userId.Some?
    requires !Clashes(c, b) && !ActiveFor(c, b, now)
    ensures Clean(c, rooms, rows + [b], now) == Clean(c, rooms, rows, now)
  {
    var more := rows + [b];
    assert forall x :: x in more <==> x in rows || x == b;
  }

  /** A row on another room never affects the verdict. */
  lemma OtherRoomIgnored(c: Candidate, rooms: map<nat, Room>, rows: seq<Booking>, now: int, b: Booking)
    requires c.roomId != Some(b.roomId)
    ensures Clean(c, rooms, rows + [b], now) == Clean(c, rooms, rows, now)
  {
    if HasTimes(c) && c.roomId.Some? && c.userId.Some? {
      UnrelatedRowIgnored(c, rooms, rows, now, b);
    }
  }

  /** Another user's row on the same room that ends as the candidate starts, or starts as it ends, is no overlap. */
  lemma BackToBackAccepted(c: Candidate, rooms: map<nat, Room>, rows: seq<Booking>, now: int, b: Booking)
    requires HasTimes(c) && c.roomId == Some(b.roomId) && c.userId.Some? && c.userId != Some(b.userId)
    requires b.end == c.start.value || b.start == c.end.value
    ensures Clean(c, rooms, rows + [b], now) == Clean(c, rooms, rows, now)
  {
    UnrelatedRowIgnored(c, rooms, rows, now, b);
  }

  /** When an edit is re-validated, the stored version of the same booking is not held against it. */
  lemma OwnRowIgnored(c: Candidate, rooms: map<nat, Room>, rows: seq<Booking>, now: int, b: Booking)
    requires IsSelf(c, b)
    ensures Clean(c, rooms, rows + [b], now) == Clean(c, rooms, rows, now)
  {
    if HasTimes(c) && c.roomId.Some? && c.userId.Some? {
      UnrelatedRowIgnored(c, rooms, rows, now, b);
    }
  }

  /** The duration message names the limit: different limits give different messages. */
  lemma DurationMessageNamesLimit(h1: int, h2: int)
    requires Message(DurationExceeded(h1)) == Message(DurationExceeded(h2))
    ensures h1 == h2
  {
    var m1, m2 := Message(DurationExceeded(h1)), Message(DurationExceeded(h2));
    var n := |"You can only book up to "|;
    assert IntText(h1) == m1[n..|m1| - 21];
    assert IntText(h2) == m2[n..|m2| - 21];
    IntTextInjective(h1, h2);
  }

  // ---------------------------------------------------------------------------------------
  // The booking table and the save gate.

  function Ids(rows: seq<Booking>): set<nat>
  {
    set b | b in rows :: b.id
  }

  /** The table's primary key: no two rows share an id. */
  predicate UniqueIds(rows: seq<Booking>)
  {
    forall i, j :: 0 <= i < j < |rows| ==> rows[i].id != rows[j].id
  }

  /** No two bookings of one room share an instant. */
  predicate NoOverlap(rows: seq<Booking>)
  {
    forall a, b :: a in rows && b in rows && a.id != b.id && a.roomId == b.roomId ==>
      !Overlaps(a, b.start, b.end)
  }

  /** At time `now`, no user holds two live bookings of one room. */
  predicate NoTwoActive(rows: seq<Booking>, now: int)
  {
    forall a, b :: a in rows && b in rows && a.id != b.id && a.roomId == b.roomId && a.userId == b.userId ==>
      a.end < now || b.end < now
  }

  /** The row a candidate becomes when it is stored under `id`. */
  function Persisted(c: Candidate, id: nat): (b: Booking)
    requires HasTimes(c) && c.roomId.Some? && c.userId.Some?
  {
    Booking(id, c.roomId.value, c.userId.value, c.start.value, c.end.value)
  }

  /** The rows a filter keeps, in table order (the ORM's `filter`). */
  function Where(rows: seq<Booking>, keep: Booking -> bool): (r: seq<Booking>)
    ensures forall b :: b in r <==> b in rows && keep(b)
    ensures multiset(r) <= multiset(rows)
    ensures UniqueIds(rows) ==> UniqueIds(r)
  {
    if rows == [] then []
    else
      var rest := Where(rows[1..], keep);
      assert rows == [rows[0]] + rows[1..];
      if keep(rows[0]) then
        assert UniqueIds(rows) ==> rows[0].id !in Ids(rows[1..]);
        [rows[0]] + rest
      else rest
  }

  /** The table after `DELETE ... WHERE id = id`. */
  function Without(rows: seq<Booking>, id: nat): (r: seq<Booking>)
    ensures forall b :: b in r <==> b in rows && b.id != id
    ensures UniqueIds(rows) ==> UniqueIds(r)
  {
    Where(rows, (b: Booking) => b.id != id)
  }

  /**
   * The table after saving row b: the row with b's id is overwritten in place
   * (an UPDATE), or b is appended when no row has its id (an INSERT).
   */
  function Upsert(rows: seq<Booking>, b: Booking): (r: seq<Booking>)
    ensures forall x :: x in r <==> x == b || (x in rows && x.id != b.id)
    ensures b.id !in Ids(rows) ==> r == rows + [b]
    ensures b.id in Ids(rows) ==> |r| == |rows|
    ensures UniqueIds(rows) ==> UniqueIds(r)
  {
    if b.id in Ids(rows) then
      var r := seq(|rows|, i requires 0 <= i < |rows| => if rows[i].id == b.id then b else rows[i]);
      assert forall x :: x in rows && x.id == b.id ==> b in r by {
        forall x | x in rows && x.id == b.id ensures b in r {
          var i :| 0 <= i < |rows| && rows[i] == x;
          assert r[i] == b;
        }
      }
      assert forall i :: 0 <= i < |rows| ==> r[i] == b || (r[i] == rows[i] && rows[i].id != b.id);
      assert forall x :: x in rows && x.id != b.id ==> x in r by {
        forall x | x in rows && x.id != b.id ensures x in r {
          var i :| 0 <= i < |rows| && rows[i] == x;
          assert r[i] == x;
        }
      }
      r
    else
      rows + [b]
  }

  /** A save that the gate accepted keeps NoOverlap of the table. */
  lemma AcceptedSaveKeepsNoOverlap(c: Candidate, rooms: map<nat, Room>, rows: seq<Booking>, now: int, id: nat)
    requires Clean(c, rooms, rows, now) == Accepted
    requires c.pk.Some? ==> id == c.pk.value
    requires c.pk.None? ==> id !in Ids(rows)
    requires NoOverlap(rows)
    ensures NoOverlap(Upsert(rows, Persisted(c, id)))
  {
    var n := Persisted(c, id);
    var after := Upsert(rows, n);
    assert Satisfies(SlotFree, c, rooms, rows, now);
    forall a, b | a in after && b in after && a.id != b.id && a.roomId == b.roomId
      ensures !Overlaps(a, b.start, b.end)
    {
      if a == n {
        assert !Clashes(c, b);
      } else if b == n {
        assert !Clashes(c, a);
      }
    }
  }

  /** A save that the gate accepted at `now` keeps NoTwoActive at `now`. */
  lemma AcceptedSaveKeepsNoTwoActive(c: Candidate, rooms: map<nat, Room>, rows: seq<Booking>, now: int, id: nat)
    requires Clean(c, rooms, rows, now) == Accepted
    requires c.pk.Some? ==> id == c.pk.value
    requires c.pk.None? ==> id !in Ids(rows)
    requires NoTwoActive(rows, now)
    ensures NoTwoActive(Upsert(rows, Persisted(c, id)), now)
  {
    var n := Persisted(c, id);
    var after := Upsert(rows, n);
    assert Satisfies(NoOtherActiveBooking, c, rooms, rows, now);
    forall a, b | a in after && b in after && a.id != b.id && a.roomId == b.roomId && a.userId == b.userId
      ensures a.end < now || b.end < now
    {
      if a == n {
        assert !ActiveFor(c, b, now);
      } else if b == n {
        assert !ActiveFor(c, a, now);
      }
    }
  }

  /** NoTwoActive, once it holds, keeps holding as time passes (until the next write). */
  lemma NoTwoActiveLater(rows: seq<Booking>, now: int, later: int)
    requires now <= later && NoTwoActive(rows, now)
    ensures NoTwoActive(rows, later)
  {
  }

  datatype SaveResult = Saved(id: nat) | Invalid(error: ValidationError)

  /**
   * The rooms and booking rows of the database. Every booking row is written by Save,
   * so the table keeps NoOverlap and well-formed intervals at all times.
   */
  class Store {
    var rooms: map<nat, Room>
    var bookings: seq<Booking>
    /** The id the next inserted booking receives: above every id in use. */
    var nextId: nat

    ghost predicate Valid()
      reads this
    {
      UniqueIds(bookings)
      && (forall b :: b in bookings ==> b.id < nextId)
      && (forall b :: b in bookings ==> b.start < b.end)
      && NoOverlap(bookings)
    }

    constructor (rooms: map<nat, Room>)
      ensures Valid()
      ensures this.rooms == rooms && bookings == []
    {
      this.rooms := rooms;
      bookings := [];
      nextId := 1;
    }

    /**
     * Booking.save: run the gate; store nothing when it rejects, otherwise insert the
     * candidate under a fresh id (no pk) or overwrite the row with its pk.
     */
    method Save(c: Candidate, now: int) returns (r: SaveResult)
      requires Valid()
      modifies this
      ensures Valid()
      ensures rooms == old(rooms)
      ensures r.Invalid? <==> Clean(c, rooms, old(bookings), now).Rejected?
      ensures r.Invalid? ==> r.error == Clean(c, rooms, old(bookings), now).error && bookings == old(bookings)
      ensures r.Saved? ==>
        HasTimes(c) && c.roomId.Some? && c.userId.Some?
        && (c.pk.Some? ==> r.id == c.pk.value)
        && (c.pk.None? ==> r.id !in Ids(old(bookings)))
        && bookings == Upsert(old(bookings), Persisted(c, r.id))
      ensures r.Saved? && old(NoTwoActive(bookings, now)) ==> NoTwoActive(bookings, now)
    {
      var verdict := Clean(c, rooms, bookings, now);
      if verdict.Rejected? {
        return Invalid(verdict.error);
      }
      assert Satisfies(TimesGiven, c, rooms, bookings, now) && Satisfies(EndAfterStart, c, rooms, bookings, now);
      assert Satisfies(RoomGiven, c, rooms, bookings, now) && Satisfies(UserGiven, c, rooms, bookings, now);
      var id := if c.pk.Some? then c.pk.value else nextId;
      var row := Persisted(c, id);
      AcceptedSaveKeepsNoOverlap(c, rooms, bookings, now, id);
      if NoTwoActive(bookings, now) {
        AcceptedSaveKeepsNoTwoActive(c, rooms, bookings, now, id);
      }
      bookings := Upsert(bookings, row);
      if id >= nextId {
        nextId := id + 1;
      }
      r := Saved(id);
    }

    /** Delete the booking row with the given id, leaving every other row as it was. */
    method Delete(id: nat)
      requires Valid()
      modifies this
      ensures Valid()
      ensures rooms == old(rooms)
      ensures bookings == Without(old(bookings), id)
    {
      bookings := Without(bookings, id);
    }
  }
}
