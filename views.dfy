/**
 * The request handlers of the booking application over the in-memory store. Rendering and
 * redirects are abstract Response values; the clock is the `now` parameter.
 */
module Views {
  import opened Wrappers
  import opened Text
  import opened Models

  /** The requesting account; an anonymous request has no user. */
  datatype User = User(id: nat, isStaff: bool, isActive: bool)

  datatype Request = Request(user: Option<User>, path: string)

  /** What room_detail is asked to do: show the page (any non-POST request), or book (a POST). */
  datatype Action = View | Submit(start: Option<int>, end: Option<int>)

  datatype Response =
    | LoginRedirect(next: string)             // the login page, `?next=` the request path
    | AdminLoginRedirect(next: string)        // the staff login page, `?next=` the request path
    | NotFound
    | ServerError                             // an exception escaped the handler
    | RoomRedirect(roomId: nat)
    | MineRedirect
    | RoomPage(roomId: nat, bookings: seq<Booking>, formError: Option<ValidationError>)
    | BookingList(bookings: seq<Booking>)

  /** The bookings of one room, in table order. */
  function RoomBookings(rows: seq<Booking>, roomId: nat): (r: seq<Booking>)
    ensures forall b :: b in r <==> b in rows && b.roomId == roomId
  {
    Where(rows, (b: Booking) => b.roomId == roomId)
  }

  /** The candidate a submission builds: a new booking bound to the viewed room and the requester. */
  function Submitted(roomId: nat, user: User, start: Option<int>, end: Option<int>): Candidate
  {
    Candidate(None, Some(roomId), Some(user.id), start, end)
  }

  /**
   * room_detail: anyone may view a room; booking it takes a signed-in user. The submission is
   * saved through the gate, and a rejection comes back as a form error on the page.
   */
  method RoomDetail(store: Store, req: Request, roomId: nat, action: Action, now: int) returns (resp: Response)
    requires store.Valid()
    modifies store
    ensures store.Valid()
    ensures store.rooms == old(store.rooms)
    ensures roomId !in store.rooms ==> resp == NotFound && store.bookings == old(store.bookings)
    ensures roomId in store.rooms && action.View? ==>
      resp == RoomPage(roomId, RoomBookings(store.bookings, roomId), None)
      && store.bookings == old(store.bookings)
    ensures roomId in store.rooms && action.Submit? && req.user.None? ==>
      resp == LoginRedirect(req.path) && store.bookings == old(store.bookings)
    ensures roomId in store.rooms && action.Submit? && req.user.Some? ==>
      var c := Submitted(roomId, req.user.value, action.start, action.end);
      var verdict := Clean(c, store.rooms, old(store.bookings), now);
      (verdict.Rejected? ==>
        resp == RoomPage(roomId, RoomBookings(store.bookings, roomId), Some(verdict.error))
        && store.bookings == old(store.bookings))
      && (verdict.Accepted? ==>
        resp == RoomRedirect(roomId) && HasTimes(c)
        && exists id :: id !in Ids(old(store.bookings))
                        && store.bookings == old(store.bookings) + [Persisted(c, id)])
  {
    if roomId !in store.rooms {
      return NotFound;
    }
    match action
    case View =>
      resp := RoomPage(roomId, RoomBookings(store.bookings, roomId), None);
    case Submit(start, end) =>
      if req.user.None? {
        return LoginRedirect(req.path);
      }
      var c := Submitted(roomId, req.user.value, start, end);
      var result := store.Save(c, now);
      match result
      case Saved(id) =>
        resp := RoomRedirect(roomId);
      case Invalid(e) =>
        resp := RoomPage(roomId, RoomBookings(store.bookings, roomId), Some(e));
  }

  /** mine: the requester's own bookings; anonymous requests are sent to log in. */
  function MineView(req: Request, rows: seq<Booking>): (resp: Response)
    ensures req.user.None? ==> resp == LoginRedirect(req.path)
    ensures req.user.Some? ==>
      resp.BookingList? && multiset(resp.bookings) <= multiset(rows)
      && forall b :: b in resp.bookings <==> b in rows && b.userId == req.user.value.id
  {
    match req.user
    case None => LoginRedirect(req.path)
    case Some(u) => BookingList(Where(rows, (b: Booking) => b.userId == u.id))
  }

  /**
   * cancel_booking: the booking is looked up by id AND owner, so someone else's booking is
   * answered exactly like a missing one, and nothing is deleted.
   */
  method CancelBooking(store: Store, req: Request, bookingId: nat) returns (resp: Response)
    requires store.Valid()
    modifies store
    ensures store.Valid()
    ensures store.rooms == old(store.rooms)
    ensures req.user.None? ==> resp == LoginRedirect(req.path) && store.bookings == old(store.bookings)
    ensures req.user.Some? ==>
      (resp == MineRedirect <==>
        exists b :: b in old(store.bookings) && b.id == bookingId && b.userId == req.user.value.id)
    ensures req.user.Some? && resp != MineRedirect ==>
      resp == NotFound && store.bookings == old(store.bookings)
    ensures resp == MineRedirect ==> store.bookings == Without(old(store.bookings), bookingId)
  {
    if req.user.None? {
      return LoginRedirect(req.path);
    }
    var owner := req.user.value.id;
    if exists b :: b in store.bookings && b.id == bookingId && b.userId == owner {
      store.Delete(bookingId);
      resp := MineRedirect;
    } else {
      resp := NotFound;
    }
  }

  /** Ordered by start time, latest first. */
  predicate Descending(rows: seq<Booking>)
  {
    forall i, j :: 0 <= i < j < |rows| ==> rows[i].start >= rows[j].start
  }

  /** Insert b into a list ordered latest first, ahead of the rows that start when it does. */
  function InsertByStart(b: Booking, rows: seq<Booking>): (r: seq<Booking>)
    requires Descending(rows)
    ensures Descending(r)
    ensures multiset(r) == multiset(rows) + multiset{b}
  {
    if rows == [] || b.start >= rows[0].start then [b] + rows
    else
      var rest := InsertByStart(b, rows[1..]);
      assert rows == [rows[0]] + rows[1..];
      forall x | x in rest ensures rows[0].start >= x.start {
        assert x in multiset(rows[1..]) + multiset{b};
        if x != b {
          var k :| 0 <= k < |rows[1..]| && rows[1..][k] == x;
          assert rows[k + 1] == x;
        }
      }
      [rows[0]] + rest
  }

  /** `order_by("-start_time")`: rows that start at the same time keep their table order. */
  function SortByStartDescending(rows: seq<Booking>): (r: seq<Booking>)
    ensures Descending(r)
    ensures multiset(r) == multiset(rows)
  {
    if rows == [] then []
    else
      assert rows == [rows[0]] + rows[1..];
      InsertByStart(rows[0], SortByStartDescending(rows[1..]))
  }

  /** Filtering an ordered list leaves it ordered. */
  lemma {:induction false} WhereKeepsOrder(rows: seq<Booking>, keep: Booking -> bool)
    requires Descending(rows)
    ensures Descending(Where(rows, keep))
  {
    if rows != [] {
      WhereKeepsOrder(rows[1..], keep);
      assert forall x :: x in rows[1..] ==> rows[0].start >= x.start;
    }
  }

  /** `filter(room_id=...)` on an ordered list. */
  function OfRoom(rows: seq<Booking>, roomId: int): (r: seq<Booking>)
    requires Descending(rows)
    ensures Descending(r) && multiset(r) <= multiset(rows)
    ensures forall b :: b in r <==> b in rows && b.roomId as int == roomId
  {
    WhereKeepsOrder(rows, (b: Booking) => b.roomId as int == roomId);
    Where(rows, (b: Booking) => b.roomId as int == roomId)
  }

  /** `filter(user__username__icontains=...)` on an ordered list. */
  function OfMatchingUser(rows: seq<Booking>, usernames: map<nat, string>, pattern: string): (r: seq<Booking>)
    requires Descending(rows)
    ensures Descending(r) && multiset(r) <= multiset(rows)
    ensures forall b :: b in r <==>
      b in rows && b.userId in usernames && ContainsIgnoringCase(usernames[b.userId], pattern)
  {
    var matches := (b: Booking) => b.userId in usernames && ContainsIgnoringCase(usernames[b.userId], pattern);
    WhereKeepsOrder(rows, matches);
    Where(rows, matches)
  }

  predicate IsStaffMember(req: Request)
  {
    req.user.Some? && req.user.value.isActive && req.user.value.isStaff
  }

  /**
   * admin_bookings: staff only; every booking latest first, narrowed to one room when the
   * `room` parameter is non-empty and to users whose name contains the `user` parameter,
   * ignoring case, when that is non-empty. A room parameter that is not a number raises.
   * `usernames` is the user table the listing joins, from user id to username.
   */
  function StaffBookings(req: Request, rows: seq<Booking>, usernames: map<nat, string>,
                         roomParam: string, userParam: string): (resp: Response)
    ensures !IsStaffMember(req) ==> resp == AdminLoginRedirect(req.path)
    ensures IsStaffMember(req) && roomParam != "" && ParseInt(roomParam).None? ==> resp == ServerError
    ensures IsStaffMember(req) && (roomParam == "" || ParseInt(roomParam).Some?) ==>
      resp.BookingList? && Descending(resp.bookings)
      && multiset(resp.bookings) <= multiset(rows)
      && forall b :: b in resp.bookings <==>
        b in rows
        && (roomParam != "" ==> ParseInt(roomParam) == Some(b.roomId as int))
        && (userParam != "" ==> b.userId in usernames && ContainsIgnoringCase(usernames[b.userId], userParam))
  {
    if !IsStaffMember(req) then AdminLoginRedirect(req.path)
    else if roomParam != "" && ParseInt(roomParam).None? then ServerError
    else
      var ordered := SortByStartDescending(rows);
      assert forall b :: b in ordered <==> b in multiset(rows);
      var byRoom := if roomParam == "" then ordered else OfRoom(ordered, ParseInt(roomParam).value);
      var byUser := if userParam == "" then byRoom else OfMatchingUser(byRoom, usernames, userParam);
      BookingList(byUser)
  }
}
