# Booking form of the SkyWings flight storefront, in Dafny

This project models the client-side logic of the booking page
(`src/pages/Booking.tsx`) of a flight search-and-booking storefront. The page
keeps a passenger count and one form entry per passenger, resizes the entries
when the count changes, edits one field of one entry at a time, refuses to
book while a required field is empty, and on confirmation writes one booking
row and one passenger row per entry to a hosted backend.

Modules:

- `Wrappers`: the `Option` type, used for JavaScript `null` and missing values.
- `Decimal`: `Number.prototype.toString()` for non-negative integers, its
  inverse, and facts about trailing digits.
- `Passengers`: the passenger entry and its fields, resizing
  (`updatePassengerCount`'s array construction), the required-field rule and
  the lowest incomplete entry, and the mapping of entries to `passengers` rows.
- `BookingPage`: the total price, the booking reference, the error message,
  and the class `BookingForm` with the page state `numPassengers` and
  `passengers`, its two update handlers and `handleBooking`.

The invariant of the form is `|passengers| == numPassengers`
(`BookingForm.Valid`). The constructor establishes it, and both handlers keep
it. `UpdatePassengerCount` re-establishes it from any state.

What the backend answers is a `Backend` value given to `HandleBooking`. It
holds the session's user id (or none), the clock reading `Date.now()`, the
id of the inserted booking (or none when that insert fails), and whether the
passenger insert succeeds. `HandleBooking` returns an `Outcome` that says how
the press ended and which rows it wrote or tried to write.

Facts proved about the code as written:

- Shrinking the count and growing it back blanks the dropped entries
  (`ResizedTwice`).
- A failed passenger insert leaves the booking row in place, because the two
  inserts are not one transaction. `HandleBooking` ends in
  `PassengerInsertFailed` exactly when the booking insert succeeded and the
  passenger insert failed. A booking row stays stored exactly when the
  booking insert succeeded.
- For clock readings of at least 10^7, two readings give the same booking
  reference exactly when they agree modulo 10^8 (`BookingRefCollides`). So
  bookings about 27.8 hours apart can share a reference.

## Model

| member | source | states |
|---|---|---|
| `Passengers.With` | src/pages/Booking.tsx:83 | the updated entry holds the new value in the chosen field and the old value in every other field |
| `Passengers.WithLaws` | src/pages/Booking.tsx:83 | writing a field's own value back changes nothing; a second write to a field overrides the first |
| `Passengers.Resized` | src/pages/Booking.tsx:75-77 | the new list has exactly `count` entries |
| `Passengers.ResizedTruncatesOrPads` | src/pages/Booking.tsx:75-77 | resizing equals truncation to the first `count` entries, or the old list followed by `count - len` blank entries |
| `Passengers.ResizedKeepsPrefix` | src/pages/Booking.tsx:75-77 | entries below both lengths are kept; every slot at or past the old length is blank |
| `Passengers.ResizedSame` | src/pages/Booking.tsx:73-78 | choosing the current count leaves the entries unchanged |
| `Passengers.ResizedTwice` | src/pages/Booking.tsx:73-78 | two resizes keep only the entries below the smaller length; growing then shrinking back restores the list |
| `Passengers.Complete` | src/pages/Booking.tsx:93 | an entry passes exactly when every required field (first name, last name, date of birth) is non-empty |
| `Passengers.OptionalFieldsIrrelevant` | src/pages/Booking.tsx:93 | passport number and nationality never affect the check; a blank entry never passes |
| `Passengers.FirstIncomplete` | src/pages/Booking.tsx:91-97 | no index is reported iff every entry passes; a reported index is a failing entry with only passing entries before it |
| `Passengers.FirstIncompleteSpec` | src/pages/Booking.tsx:91-97 | index `k` is reported iff `k` is the lowest failing index |
| `Passengers.FirstIncompleteIgnoresOptional` | src/pages/Booking.tsx:91-97 | editing an optional field of any entry leaves the validation result unchanged |
| `Passengers.GrowingReportsFirstNewSlot` | src/pages/Booking.tsx:73-97 | after adding passengers to a fully filled form, validation reports the first added slot |
| `Passengers.OrNull` | src/pages/Booking.tsx:136-137 | the empty string becomes `null` and every other string is kept; reading `null` back as "" restores the string |
| `Passengers.ToRecord` | src/pages/Booking.tsx:131-138 | a row carries the booking id, reads back to exactly the entry it came from, and holds `null` in an optional column iff that field was empty |
| `Passengers.PassengerRecords` | src/pages/Booking.tsx:131-138 | one row per entry in the same order, all with the same booking id, each reading back to its entry |
| `Passengers.PassengerRecordsFields` | src/pages/Booking.tsx:131-138 | required fields are copied verbatim; an optional field is `null` exactly when it was empty |
| `Decimal.ToDecimal` | src/pages/Booking.tsx:113 | the decimal string of a timestamp is non-empty, all digits, and has no leading zero unless the number is 0 |
| `Decimal.ParseToDecimal` | src/pages/Booking.tsx:113 | parsing the decimal string gives back the number |
| `Decimal.ToDecimalInjective` | src/pages/Booking.tsx:113 | distinct numbers have distinct decimal strings |
| `Decimal.ToDecimalLength` | src/pages/Booking.tsx:113 | for `k >= 1`, the string has more than `k` digits iff the number is at least 10^k |
| `Decimal.ToDecimalSuffix` | src/pages/Booking.tsx:113 | the last `k` characters of the decimal string are the `k` low digits of the number |
| `Decimal.ParseLowDigits` | src/pages/Booking.tsx:113 | the `k` low digits denote the number modulo 10^k |
| `Decimal.LowDigitsMod` | src/pages/Booking.tsx:113 | the `k` low digits depend only on the number modulo 10^k |
| `BookingPage.SliceLast` | src/pages/Booking.tsx:113 | `slice(-k)` returns a suffix of length `min(k, len)` |
| `BookingPage.BookingRef` | src/pages/Booking.tsx:113 | a reference is "SW" followed by 1 to 8 digits |
| `BookingPage.BookingRefShape` | src/pages/Booking.tsx:113 | a reference has exactly 10 characters iff the clock reads at least 10^7 |
| `BookingPage.BookingRefDigits` | src/pages/Booking.tsx:113 | the reference's digits denote the clock reading modulo 10^8 |
| `BookingPage.BookingRefWholeReading` | src/pages/Booking.tsx:113 | for readings below 10^8 the digits are exactly the reading's decimal string, with no leading zero |
| `BookingPage.BookingRefCollides` | src/pages/Booking.tsx:113 | for readings of at least 10^7, equal references iff equal readings modulo 10^8 |
| `BookingPage.TotalPrice` | src/pages/Booking.tsx:123 | the total is the flight's price counted once per passenger; `HandleBooking` stores it for the current count, and lines 196 and 286 show the same expression |
| `BookingPage.MissingFieldsMessage` | src/pages/Booking.tsx:94 | the toast is the fixed text followed by the decimal passenger number, which parses back to that number and has no leading zero |
| `BookingPage.BookingForm.constructor` | src/pages/Booking.tsx:38-41 | the page starts with count 1 and one blank entry, so the invariant holds |
| `BookingPage.BookingForm.UpdatePassengerCount` | src/pages/Booking.tsx:73-79 | the count becomes `count`, the entries are the resized old entries, and the invariant holds afterwards |
| `BookingPage.BookingForm.UpdatePassenger` | src/pages/Booking.tsx:81-85 | the count and length are unchanged; only the chosen field of the chosen entry changes; the invariant is kept |
| `BookingPage.BookingForm.HandleBooking` | src/pages/Booking.tsx:87-154 | each outcome holds exactly under its condition. No flight: nothing happens. Validation fails iff some entry is incomplete; it then reports the lowest such entry 1-based with its toast text, before the backend is asked anything. No session: sign-in is required. Booking insert fails: nothing is stored. Passenger insert fails: the booking row stays stored. Otherwise the booking is confirmed. A booking row stays stored iff the booking insert succeeded. The booking row holds the user, the flight, `BookingRef(now)`, the count and `TotalPrice`. The passenger rows are `PassengerRecords` under the returned booking id. Under the invariant, the stored total is the price times the number of passenger rows |

## Left out

- Backend calls are not modelled; the backend's own behaviour is not
  visible. The session check inside `handleBooking` and the two inserts
  answer through the fields of `Backend`. The flight loaded on page load is
  the `flight` parameter of `HandleBooking`. The session check on page load
  (lines 45-53) and its redirect are not modelled.
- The busy flag `booking`, toasts other than the validation message,
  navigation, the `setTimeout` redirect and the `console.error` call are
  rendering and async control flow.
- `Date.now()` is a clock read. It is the `now` field of `Backend`, an
  unbounded `nat`. JavaScript numbers lose integer precision beyond 2^53, and
  `toString` switches to exponent notation from 10^21. Neither effect is
  modelled.
- `price` is a JavaScript floating-point number. It is an `int` in the
  smallest currency unit, so rounding of `price * numPassengers` is not
  modelled. The number formatting of the totals shown at lines 196 and 286 is
  not modelled either. Those lines show the same `price * numPassengers`
  expression that `TotalPrice` models and `HandleBooking` stores.
- Date formatting with date-fns (line 193) is a foreign library.
- `BookingPage.BookingForm.UpdatePassenger` requires `index < |passengers|`.
  The page only passes indices of rendered entries. In JavaScript, an index
  equal to the length appends an entry that has only the edited field, and a
  larger index also leaves holes in the array. The model represents neither.
- `BookingPage.BookingForm.UpdatePassengerCount` takes a `nat`. The page only
  passes 1 to 4; a negative or fractional count, where `Array(count)` throws,
  is not modelled.
- Seat availability and conflicting bookings are not checked anywhere in the
  code, and the model does not assume them.
- The other pages and components (flight listing, my bookings, search form,
  landing page) are rendering or backend queries and are not part of this
  model.
