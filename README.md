# Room booking: the validation gate and its request handlers

A model, in Dafny, of the core of a small room-booking web application. Users browse
rooms, book time slots, list their own bookings and cancel them; staff list every booking.
All the domain logic is in two places:

- `Booking.clean` / `Booking.save` (`booking/models.py`): a candidate booking is checked
  rule by rule, and the first rule that fails is reported. A booking is stored only when
  every rule passes.
- The request handlers (`booking/views.py`): the booking form on a room's page, "my
  bookings", cancelling one's own booking, and the staff listing with its filters and
  ordering.

Timestamps are whole seconds. A room's limit of `max_hours` hours is
`max_hours * 3600` seconds. The clock (`timezone.now()`) is the parameter `now`.

Files:

- `wrappers.dfy`: module `Wrappers`, the `Option` type.
- `text.dfy`: module `Text`. It holds Python's `str()` of an integer (used in the duration
  message), `int()` of a query parameter (the staff room filter), and ASCII case folding
  with substring search (the staff username filter).
- `models.dfy`: module `Models`. It holds rooms, booking rows and candidates, and the
  gate `Clean`, both as a chain and as an independent rule table (`Rule`, `Satisfies`,
  `Order`). It also holds the table operations (`Where`, `Without`, `Upsert`) and the
  `Store` class, whose `Save` stores a booking only through the gate.
- `views.dfy`: module `Views`. It holds `RoomDetail`, `MineView`, `CancelBooking` and
  `StaffBookings`, with the ordering and filters the staff listing uses.

How the model reads the code:

- `not self.room_id` / `not self.user_id` are Python truth tests, so an id of `None` or `0`
  counts as missing (`IsSet`). Datetime values are always truthy, so a time is missing only
  when it is `None`.
- `exclude(pk=self.pk)` with `pk = None` excludes nothing (`IsSelf`).
- `clean()` makes eight explicit checks. Reading `self.room` at models.py:39 adds a ninth
  way to fail: on a room id that has no room, the ORM raises its "matching query does not
  exist" error before the duration check. The model reports this as `RoomDoesNotExist`,
  so the gate has nine rules.
- `max_hours` is `IntegerField(default=1)` with no lower bound, so the model allows any
  integer. A limit of zero or less rejects every booking.
- Every booking row is written through `Save`. So `NoOverlap` (no two bookings of a room
  share an instant), unique ids and `start < end` are part of `Store.Valid()`.
  `NoTwoActive` (no user holds two live bookings of one room) depends on the time, so it
  is not an invariant of the store. Instead, `Save` preserves it at the time of the save
  (`AcceptedSaveKeepsNoTwoActive`), and it keeps holding as time passes
  (`NoTwoActiveLater`).
- The user table enters only the staff listing: `StaffBookings` takes it as a map from
  user id to username.

## Model

| member | source | states |
|---|---|---|
| `Models.Clean` | cn331-as2/cn331proj/booking/models.py:28-63 | Accepted exactly when all nine rules hold. A rejection names a rule that fails, and every rule checked before it holds, so the first failing rule decides. The duration error carries the target room's `max_hours`. |
| `Models.MissingTimesReportedFirst` | cn331-as2/cn331proj/booking/models.py:29-30 | A missing start or end time is rejected with the times-required error, whatever the room, user and table hold. |
| `Models.ReversedIntervalReportedSecond` | cn331-as2/cn331proj/booking/models.py:31-32 | With both times given and `end <= start`, the verdict is the end-after-start error, ahead of the room, user and duration checks. |
| `Models.DurationLimitIsInclusive` | cn331-as2/cn331proj/booking/models.py:38-40 | Once the earlier rules pass, the duration error occurs exactly when `end - start > max_hours * 3600`, so a booking of exactly the limit passes. The message then contains the decimal text of the room's `max_hours`. |
| `Models.DurationMessageNamesLimit` | cn331-as2/cn331proj/booking/models.py:39-40 | Two duration messages are equal only when the limits are equal: the message reports the room's configured limit. |
| `Models.UnavailableRoomRejected` | cn331-as2/cn331proj/booking/models.py:42-43 | A booking of allowed length on a room whose status is not `"AVAILABLE"` is rejected as unavailable, whatever the table holds. |
| `Models.OverlapRejected` | cn331-as2/cn331proj/booking/models.py:45-52 | Past the status check, any other row on the same room with `other.start < end` and `other.end > start` rejects the candidate as an overlap. |
| `Models.BackToBackAccepted` | cn331-as2/cn331proj/booking/models.py:45-52 | Another user's row on the same room that ends exactly when the candidate starts, or starts exactly when it ends, does not change the verdict. |
| `Models.ActiveBookingRejected` | cn331-as2/cn331proj/booking/models.py:54-63 | Past the overlap check, another row of the same user on the same room with `end >= now` rejects the candidate. |
| `Models.UnrelatedRowIgnored` | cn331-as2/cn331proj/booking/models.py:45-63 | A row that neither clashes with the candidate nor is a live row of its user on its room does not change the verdict. |
| `Models.OtherRoomIgnored` | cn331-as2/cn331proj/booking/models.py:45-59 | A row on another room never changes the verdict, under either the overlap rule or the one-live-booking rule. |
| `Models.OwnRowIgnored` | cn331-as2/cn331proj/booking/models.py:45-59 | When an edit is re-validated, the stored row with the candidate's own pk does not change the verdict. |
| `Models.Upsert` | cn331-as2/cn331proj/booking/models.py:65-67 | Saving row b leaves exactly b and the rows with other ids. It appends when b's id is new, and otherwise replaces the row with b's id, keeping the length. It keeps ids unique. |
| `Models.Store.Save` | cn331-as2/cn331proj/booking/models.py:65-67 | The save is rejected exactly when the gate rejects, with the same error, and then the table is unchanged. On success the candidate is stored under its pk, or under a fresh id when it has none. No other row changes, and the store invariant (`NoOverlap`, unique ids, `start < end`) is kept. |
| `Models.AcceptedSaveKeepsNoOverlap` | cn331-as2/cn331proj/booking/models.py:45-67 | If no two rows of a room overlap before an accepted save, none overlap after it (`NoOverlap`). |
| `Models.AcceptedSaveKeepsNoTwoActive` | cn331-as2/cn331proj/booking/models.py:54-67 | If no user holds two live rows on one room at `now` before a save accepted at `now`, none does after it (`NoTwoActive`). |
| `Models.NoTwoActiveLater` | cn331-as2/cn331proj/booking/models.py:54-59 | `NoTwoActive` at one time implies `NoTwoActive` at every later time. |
| `Models.Store.Delete` | cn331-as2/cn331proj/booking/views.py:52 | Deleting an id leaves the table as `Without(old, id)`: exactly the rows with other ids, ids still unique, invariant kept. |
| `Text.IntTextRoundTrip` | cn331-as2/cn331proj/booking/models.py:40 | Parsing the decimal text of an integer gives that integer back, so the rendered limit is exact. |
| `Views.RoomDetail` | cn331-as2/cn331proj/booking/views.py:16-40 | Unknown room: not found. A view shows the room's bookings. An anonymous POST redirects to login with `next` set to the request path and stores nothing. A signed-in POST is validated as a new booking bound to the viewed room and the requester. On acceptance it is appended under a fresh id and the page redirects to the room. On rejection the page comes back with the error as a form error, and the table is unchanged. |
| `Views.MineView` | cn331-as2/cn331proj/booking/views.py:43-46 | Anonymous requests redirect to login. Otherwise the list holds exactly the rows whose user is the requester, each no more often than in the table. |
| `Views.CancelBooking` | cn331-as2/cn331proj/booking/views.py:49-53 | A signed-in requester gets the redirect to "mine" exactly when a row has both the given id and the requester as owner, and that row is deleted. Otherwise (missing or someone else's) the answer is not-found and nothing changes. |
| `Views.SortByStartDescending` | cn331-as2/cn331proj/booking/views.py:70 | The result is ordered latest start first and is a permutation of the input. |
| `Views.InsertByStart` | cn331-as2/cn331proj/booking/views.py:70 | Inserting into a latest-first list keeps it latest first and adds exactly the one row. |
| `Views.WhereKeepsOrder` | cn331-as2/cn331proj/booking/views.py:70-78 | Filtering a latest-first list leaves it latest first. |
| `Views.OfRoom` | cn331-as2/cn331proj/booking/views.py:75-76 | The room filter keeps exactly the rows of that room, in order, and keeps nothing else. |
| `Views.OfMatchingUser` | cn331-as2/cn331proj/booking/views.py:77-78 | The user filter keeps exactly the rows whose user's name contains the pattern, ignoring case, in order. |
| `Views.StaffBookings` | cn331-as2/cn331proj/booking/views.py:68-85 | Non-staff requests redirect to the staff login. A non-numeric room parameter raises. Otherwise the list is latest first and a sub-multiset of the table. It holds exactly the rows on the given room (only when `room` is non-empty) whose user's name contains `user` ignoring case (only when `user` is non-empty). |
| `Text.SliceMatchesIgnoringCase` | cn331-as2/cn331proj/booking/views.py:78 | Any part of a username, written in any letter case, matches that username. |

## Left out

- Django's ORM, query sets, templates, `render`, `redirect` and `reverse`: the store is
  the `Store` object, and pages and redirects are `Response` values.
- `BookingForm` is not part of this model. A submission is reduced to its two optional
  times. The form's own field validation (required fields, date parsing) is not modelled.
  Whether the gate's error surfaces through `form.is_valid()` or through `save()`, it ends
  up as a form error on the re-rendered page, and that is what `RoomDetail` returns.
- The text of that form error: `str()` of a ValidationError is a list representation of
  `Message(e)`. The model returns the error value itself.
- `Models.Message` has no property of its own beyond `DurationMessageNamesLimit`. The
  other messages are fixed texts, and comparing long string literals is too costly for
  the prover.
- `index` (list all rooms) is a read-only listing with no rule. It is not modelled.
- `signup` and the login mechanics (sessions, password forms) belong to the framework.
  A request carries its user, or none.
- The login URL and URL-encoding of `next`: `LoginRedirect(next)` stands for both the
  explicit redirect in `room_detail` and the one made by `login_required`.
- `Room.name`, `capacity`, `image` (an external media store), and the `__str__` methods:
  no rule reads them.
- Deleting a room, which cascades to its bookings, and staff edits of rooms: they are
  outside the handlers modelled. Rooms are fixed when the store is built.
- `Text.ParseInt` accepts an optional sign followed by decimal digits. Python's `int()`
  also accepts surrounding whitespace, underscores and non-ASCII digits. For those inputs
  the model answers `ServerError`, where the source would filter.
- `Views.OfMatchingUser` folds ASCII letters only. A database's case-insensitive match
  may also fold other letters.
- The order of rows with equal start times is not fixed by `order_by("-start_time")`.
  The model keeps them in table order.
- New ids: a fresh id is one above every id in use. A database sequence need not behave
  this way after rows were inserted with explicit ids.
- Concurrency: two submissions may both pass the gate before either is written. Each
  `Save` is modelled as atomic, so this race is not captured.
- Time zones and sub-second precision: times are whole seconds on one clock.
- The database's foreign-key checks on save (a user id with no user) are not modelled.
- Behaviour comes from `models.py`, not from `tests.py`. Three tests there contradict the
  code. `test_end_before_start` builds `end = start + 1h` and still expects the
  end-before-start error. `test_clean_overlap_booking` expects the message "Overlaps with
  another booking", which is not a substring of the message models.py:52 raises ("This
  time slot overlaps with another booking."). `test_booking_per_user_per_room` never
  saves its first booking and still expects the duplicate error.
