/** The booking page: the form state it keeps (the passenger count and one
    entry per passenger), the two handlers that change it, and what confirming
    the booking computes and writes. The hosted backend is not modelled; what it
    answers is given as a `Backend` value. */
module BookingPage {
  import opened Wrappers
  import opened Decimal
  import opened Passengers

  /** The fields of a flight the booking uses; `price` is in the smallest currency unit. */
  datatype Flight = Flight(id: string, price: int)

  /** What the hosted backend answers while a booking is confirmed: the signed-in
      user (if any), the clock reading `Date.now()`, the id of the inserted
      booking row (`None` when that insert fails) and whether inserting the
      passenger rows succeeds. */
  datatype Backend = Backend(
    session: Option<string>,
    now: nat,
    bookingInsert: Option<string>,
    passengersInsertOk: bool)

  /** The row inserted into the `bookings` table. */
  datatype BookingRow = BookingRow(
    userId: string,
    flightId: string,
    bookingReference: string,
    totalPassengers: nat,
    totalPrice: int)

  /** How a press of "Confirm Booking" ends. */
  datatype Outcome =
    | NoFlight                                  // no flight loaded: nothing happens
    | MissingFields(passengerNumber: nat, message: string)  // 1-based number and the error toast
    | SignInRequired                            // no session: redirected to sign-in
    | BookingInsertFailed(rejected: BookingRow)
    | PassengerInsertFailed(booking: BookingRow, rejectedRecords: seq<PassengerRecord>)
    | Confirmed(booking: BookingRow, records: seq<PassengerRecord>)

  /** The booking row left in the `bookings` table, if any. A failed passenger
      insert does not remove the booking row written before it. */
  function StoredBooking(o: Outcome): Option<BookingRow> {
    match o
    case PassengerInsertFailed(booking, _) => Some(booking)
    case Confirmed(booking, _) => Some(booking)
    case _ => None
  }

  /** The press got past validation and reached the backend. */
  predicate TouchesBackend(o: Outcome) {
    o.SignInRequired? || o.BookingInsertFailed? || o.PassengerInsertFailed? || o.Confirmed?
  }

  // ----- Price -----

  /** `flight.price * numPassengers`: stored as `total_price` and shown in the
      flight summary and on the confirm button. Every passenger pays the
      flight's price once. */
  function TotalPrice(price: int, count: nat): (total: int)
    ensures total == FareSum(price, count)
  {
    FareSumIsProduct(price, count);
    price * count
  }

  /** The fares of `count` passengers added one by one. */
  function FareSum(price: int, count: nat): int {
    if count == 0 then 0 else FareSum(price, count - 1) + price
  }

  lemma {:induction false} FareSumIsProduct(price: int, count: nat)
    ensures FareSum(price, count) == price * count
  {
    if count > 0 {
      FareSumIsProduct(price, count - 1);
    }
  }

  // ----- Booking reference -----

  /** Number of trailing timestamp digits kept in a booking reference. */
  const RefDigits: nat := 8

  /** `s.slice(-k)` for `k > 0`: the last `k` characters, or all of `s` when it is shorter. */
  function SliceLast(s: string, k: nat): (r: string)
    requires k > 0
    ensures |r| == if |s| < k then |s| else k
    ensures s == s[..|s| - |r|] + r
  {
    s[if |s| < k then 0 else |s| - k..]
  }

  /** `` `SW${Date.now().toString().slice(-8)}` `` for the clock reading `now`:
      "SW" followed by between one and eight digits. */
  function BookingRef(now: nat): (ref: string)
    ensures 3 <= |ref| <= 2 + RefDigits
    ensures ref[..2] == "SW"
    ensures AllDigits(ref[2..])
  {
    var ref := "SW" + SliceLast(ToDecimal(now), RefDigits);
    assert ref[2..] == SliceLast(ToDecimal(now), RefDigits);
    ref
  }

  /** A reference has exactly eight digits once the clock reads at least 10^7. */
  lemma BookingRefShape(now: nat)
    ensures |BookingRef(now)| == 2 + RefDigits <==> now >= Pow10(RefDigits - 1)
  {
    ToDecimalLength(now, RefDigits - 1);
    assert BookingRef(now)[2..] == SliceLast(ToDecimal(now), RefDigits);
  }

  /** The digits of a reference are the clock reading modulo 10^8. */
  lemma BookingRefDigits(now: nat)
    ensures AllDigits(BookingRef(now)[2..])
    ensures ParseDecimal(BookingRef(now)[2..]) == now % Pow10(RefDigits)
  {
    var s := ToDecimal(now);
    var tail := SliceLast(s, RefDigits);
    assert BookingRef(now)[2..] == tail;
    if |s| < RefDigits {
      assert tail == s;
      ParseToDecimal(now);
      ToDecimalLength(now, RefDigits);
      SmallMod(now, Pow10(RefDigits));
    } else {
      assert tail == s[|s| - RefDigits..];
      ToDecimalSuffix(now, RefDigits);
      ParseLowDigits(now, RefDigits);
    }
  }

  /** Below 10^8 the digits of a reference are the whole decimal string of
      the reading, written without leading zeros. */
  lemma BookingRefWholeReading(now: nat)
    requires now < Pow10(RefDigits)
    ensures BookingRef(now)[2..] == ToDecimal(now)
  {
    ToDecimalLength(now, RefDigits);
    assert BookingRef(now)[2..] == SliceLast(ToDecimal(now), RefDigits);
  }

  lemma SmallMod(n: nat, p: nat)
    requires n < p
    ensures n % p == n
  {
  }

  /** References are not unique: two clock readings of at least 10^7 give the
      same reference exactly when they agree modulo 10^8, so bookings made
      10^8 ms (about 27.8 hours) apart share a reference. */
  lemma BookingRefCollides(now: nat, later: nat)
    requires now >= Pow10(RefDigits - 1) && later >= Pow10(RefDigits - 1)
    ensures BookingRef(now) == BookingRef(later) <==> now % Pow10(RefDigits) == later % Pow10(RefDigits)
  {
    BookingRefDigits(now);
    BookingRefDigits(later);
    if now % Pow10(RefDigits) == later % Pow10(RefDigits) {
      ToDecimalLength(now, RefDigits - 1);
      ToDecimalLength(later, RefDigits - 1);
      ToDecimalSuffix(now, RefDigits);
      ToDecimalSuffix(later, RefDigits);
      LowDigitsMod(now, later, RefDigits);
    } else {
      assert BookingRef(now)[2..] != BookingRef(later)[2..];
    }
  }

  // ----- Messages -----

  /** The error toast naming the first incomplete passenger by its 1-based number. */
  function MissingFieldsMessage(passengerNumber: nat): (msg: string)
    ensures |msg| > |MissingFieldsPrefix|
    ensures msg[..|MissingFieldsPrefix|] == MissingFieldsPrefix
    ensures AllDigits(msg[|MissingFieldsPrefix|..])
    ensures ParseDecimal(msg[|MissingFieldsPrefix|..]) == passengerNumber
    ensures passengerNumber >= 1 ==> msg[|MissingFieldsPrefix|] != '0'
  {
    ParseToDecimal(passengerNumber);
    var msg := MissingFieldsPrefix + ToDecimal(passengerNumber);
    assert msg[|MissingFieldsPrefix|..] == ToDecimal(passengerNumber);
    msg
  }

  const MissingFieldsPrefix := "Please fill in all required fields for passenger "

  // ----- The page -----

  class BookingForm {
    var numPassengers: nat
    var passengers: seq<Passenger>

    /** The form shows one entry per passenger. */
    ghost predicate Valid()
      reads this
    {
      |passengers| == numPassengers
    }

    /** The page opens with one passenger whose entry is blank. */
    constructor ()
      ensures Valid()
      ensures numPassengers == 1 && passengers == [Blank]
    {
      numPassengers := 1;
      passengers := [Blank];
    }

    /** `updatePassengerCount(count)`: set the count and resize the entries to it. */
    method UpdatePassengerCount(count: nat)
      modifies this
      ensures Valid()
      ensures numPassengers == count
      ensures passengers == Resized(old(passengers), count)
    {
      numPassengers := count;
      var newPassengers := Resized(passengers, count);
      passengers := newPassengers;
    }

    /** `updatePassenger(index, field, value)`: copy the entries and replace one
        field of one entry; the count and every other field and entry stay. */
    method UpdatePassenger(index: nat, field: Field, value: string)
      requires index < |passengers|
      modifies this
      ensures numPassengers == old(numPassengers)
      ensures |passengers| == |old(passengers)|
      ensures Get(passengers[index], field) == value
      ensures forall g :: g != field ==> Get(passengers[index], g) == Get(old(passengers)[index], g)
      ensures forall j :: 0 <= j < |passengers| && j != index ==> passengers[j] == old(passengers)[j]
      ensures old(Valid()) ==> Valid()
    {
      var newPassengers := passengers;
      newPassengers := newPassengers[index := With(newPassengers[index], field, value)];
      passengers := newPassengers;
    }

    /** `handleBooking()`: check every entry in order, stopping at the first
        incomplete one, then ask the backend for the session, insert the booking
        row and insert one passenger row per entry. */
    method HandleBooking(flight: Option<Flight>, backend: Backend) returns (o: Outcome)
      ensures flight == None <==> o == NoFlight
      ensures o.MissingFields? <==> flight.Some? && FirstIncomplete(passengers).Some?
      ensures o.MissingFields? ==> FirstIncomplete(passengers) == Some(o.passengerNumber - 1)
      ensures o.MissingFields? ==> o.message == MissingFieldsMessage(o.passengerNumber)
      ensures o.MissingFields? ==>
        var i := o.passengerNumber - 1;
        1 <= o.passengerNumber <= |passengers| && !Complete(passengers[i]) &&
        forall j :: 0 <= j < i ==> Complete(passengers[j])
      ensures TouchesBackend(o) ==> flight.Some? && forall j :: 0 <= j < |passengers| ==> Complete(passengers[j])
      ensures o.SignInRequired? <==> flight.Some? && FirstIncomplete(passengers).None? && backend.session.None?
      ensures o.BookingInsertFailed? <==>
        flight.Some? && FirstIncomplete(passengers).None? && backend.session.Some? &&
        backend.bookingInsert.None?
      ensures o.PassengerInsertFailed? <==>
        flight.Some? && FirstIncomplete(passengers).None? && backend.session.Some? &&
        backend.bookingInsert.Some? && !backend.passengersInsertOk
      ensures StoredBooking(o).Some? <==>
        flight.Some? && FirstIncomplete(passengers).None? && backend.session.Some? &&
        backend.bookingInsert.Some?
      ensures (o.BookingInsertFailed? || StoredBooking(o).Some?) ==>
        var b := if o.BookingInsertFailed? then o.rejected else o.booking;
        b == BookingRow(backend.session.value, flight.value.id, BookingRef(backend.now),
                        numPassengers, TotalPrice(flight.value.price, numPassengers))
      ensures (o.PassengerInsertFailed? || o.Confirmed?) ==>
        var rs := if o.Confirmed? then o.records else o.rejectedRecords;
        rs == PassengerRecords(passengers, backend.bookingInsert.value)
      ensures o.Confirmed? <==>
        flight.Some? && FirstIncomplete(passengers).None? && backend.session.Some? &&
        backend.bookingInsert.Some? && backend.passengersInsertOk
      ensures Valid() && o.Confirmed? ==>
        |o.records| == o.booking.totalPassengers &&
        o.booking.totalPrice == TotalPrice(flight.value.price, |o.records|)
    {
      if flight == None {
        return NoFlight;
      }
      var i := 0;
      while i < |passengers|
        invariant 0 <= i <= |passengers|
        invariant forall j :: 0 <= j < i ==> Complete(passengers[j])
      {
        var p := passengers[i];
        if p.firstName == "" || p.lastName == "" || p.dateOfBirth == "" {
          FirstIncompleteSpec(passengers, i);
          return MissingFields(i + 1, MissingFieldsMessage(i + 1));
        }
        i := i + 1;
      }
      if backend.session == None {
        return SignInRequired;
      }
      var bookingRef := BookingRef(backend.now);
      var row := BookingRow(backend.session.value, flight.value.id, bookingRef,
                            numPassengers, TotalPrice(flight.value.price, numPassengers));
      if backend.bookingInsert == None {
        return BookingInsertFailed(row);
      }
      var records := PassengerRecords(passengers, backend.bookingInsert.value);
      if !backend.passengersInsertOk {
        return PassengerInsertFailed(row, records);
      }
      o := Confirmed(row, records);
    }
  }
}
