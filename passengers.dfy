/** The passenger form of the booking page: one entry per traveller, the
    resizing that follows a change of the passenger count, the single-field
    edit, the required-field rule, and the mapping of form entries to rows of
    the `passengers` table. */
module Passengers {
  import opened Wrappers

  /** One traveller as entered in the form; every field is the text of an input box. */
  datatype Passenger = Passenger(
    firstName: string,
    lastName: string,
    dateOfBirth: string,
    passportNumber: string,
    nationality: string)

  /** The entry shown for a passenger slot nobody has filled in yet. */
  const Blank := Passenger("", "", "", "", "")

  /** The key of a passenger field (`keyof Passenger`). */
  datatype Field = FirstName | LastName | DateOfBirth | PassportNumber | Nationality

  function Get(p: Passenger, f: Field): string {
    match f
    case FirstName => p.firstName
    case LastName => p.lastName
    case DateOfBirth => p.dateOfBirth
    case PassportNumber => p.passportNumber
    case Nationality => p.nationality
  }

  /** `{ ...p, [f]: v }`: the entry with field `f` replaced by `v`. */
  function With(p: Passenger, f: Field, v: string): (q: Passenger)
    ensures Get(q, f) == v
    ensures forall g :: g != f ==> Get(q, g) == Get(p, g)
  {
    match f
    case FirstName => p.(firstName := v)
    case LastName => p.(lastName := v)
    case DateOfBirth => p.(dateOfBirth := v)
    case PassportNumber => p.(passportNumber := v)
    case Nationality => p.(nationality := v)
  }

  /** Two entries are equal exactly when they agree on every field. */
  lemma SameFields(p: Passenger, q: Passenger)
    ensures p == q <==> forall f :: Get(p, f) == Get(q, f)
  {
    if forall f :: Get(p, f) == Get(q, f) {
      assert Get(p, FirstName) == Get(q, FirstName);
      assert Get(p, LastName) == Get(q, LastName);
      assert Get(p, DateOfBirth) == Get(q, DateOfBirth);
      assert Get(p, PassportNumber) == Get(q, PassportNumber);
      assert Get(p, Nationality) == Get(q, Nationality);
    }
  }

  /** Writing back the value a field already has changes nothing, and a second
      write to the same field overrides the first. */
  lemma WithLaws(p: Passenger, f: Field, v: string, w: string)
    ensures With(p, f, Get(p, f)) == p
    ensures With(With(p, f, v), f, w) == With(p, f, w)
  {
    SameFields(With(p, f, Get(p, f)), p);
    SameFields(With(With(p, f, v), f, w), With(p, f, w));
  }

  // ----- Resizing the form -----

  /** `Array(count).fill(null).map((_, i) => passengers[i] || blank)`: slot `i`
      keeps the existing entry when there is one and is blank otherwise. */
  function Resized(ps: seq<Passenger>, count: nat): (r: seq<Passenger>)
    ensures |r| == count
  {
    seq(count, i requires 0 <= i < count => if i < |ps| then ps[i] else Blank)
  }

  /** `k` blank entries. */
  function Blanks(k: nat): (r: seq<Passenger>)
    ensures |r| == k
  {
    if k == 0 then [] else Blanks(k - 1) + [Blank]
  }

  lemma {:induction false} BlanksAt(k: nat, i: nat)
    requires i < k
    ensures Blanks(k)[i] == Blank
  {
    if i < k - 1 {
      BlanksAt(k - 1, i);
    }
  }

  /** Resizing either truncates the list to its first `count` entries or pads
      it with blank entries up to `count`. */
  lemma ResizedTruncatesOrPads(ps: seq<Passenger>, count: nat)
    ensures count <= |ps| ==> Resized(ps, count) == ps[..count]
    ensures count > |ps| ==> Resized(ps, count) == ps + Blanks(count - |ps|)
  {
    var r := Resized(ps, count);
    if count > |ps| {
      var padded := ps + Blanks(count - |ps|);
      forall i | 0 <= i < count
        ensures r[i] == padded[i]
      {
        if i >= |ps| {
          BlanksAt(count - |ps|, i - |ps|);
        }
      }
    }
  }

  /** Entries below both the old and the new length are kept; every slot past
      the old length is blank. */
  lemma ResizedKeepsPrefix(ps: seq<Passenger>, count: nat)
    ensures forall i :: 0 <= i < count && i < |ps| ==> Resized(ps, count)[i] == ps[i]
    ensures forall i :: |ps| <= i < count ==> Resized(ps, count)[i] == Blank
  {
  }

  /** Choosing the current count again leaves the list as it is. */
  lemma ResizedSame(ps: seq<Passenger>)
    ensures Resized(ps, |ps|) == ps
  {
  }

  /** Two resizes in a row keep only what survived the smaller of the two
      lengths: growing and then shrinking back restores the list, while
      shrinking and then growing again blanks the entries that were dropped. */
  lemma ResizedTwice(ps: seq<Passenger>, m: nat, n: nat)
    ensures Resized(Resized(ps, m), n) == Resized(ps[..if m < |ps| then m else |ps|], n)
    ensures m >= |ps| ==> Resized(Resized(ps, m), |ps|) == ps
  {
    var k := if m < |ps| then m else |ps|;
    assert forall i :: 0 <= i < n ==>
      Resized(Resized(ps, m), n)[i] == Resized(ps[..k], n)[i];
  }

  // ----- Required fields -----

  /** First name, last name and date of birth are required; passport number and
      nationality are optional. */
  predicate IsRequired(f: Field) {
    f == FirstName || f == LastName || f == DateOfBirth
  }

  /** The check on one entry (`!p.firstName || !p.lastName || !p.dateOfBirth`
      fails it): an entry is complete exactly when no required field is empty. */
  predicate Complete(p: Passenger)
    ensures Complete(p) <==> forall f :: IsRequired(f) ==> Get(p, f) != ""
  {
    assert Get(p, FirstName) == p.firstName && Get(p, LastName) == p.lastName
      && Get(p, DateOfBirth) == p.dateOfBirth;
    p.firstName != "" && p.lastName != "" && p.dateOfBirth != ""
  }

  /** Editing an optional field never changes whether an entry is complete,
      and a blank entry is never complete. */
  lemma OptionalFieldsIrrelevant(p: Passenger, f: Field, v: string)
    requires !IsRequired(f)
    ensures Complete(With(p, f, v)) == Complete(p)
    ensures !Complete(Blank)
  {
  }

  /** The index of the first incomplete entry, if any: nothing when every entry
      is complete, otherwise an incomplete entry with only complete ones before it. */
  function FirstIncomplete(ps: seq<Passenger>): (r: Option<nat>)
    ensures r.None? <==> forall i :: 0 <= i < |ps| ==> Complete(ps[i])
    ensures r.Some? ==>
      r.value < |ps| && !Complete(ps[r.value]) && forall j :: 0 <= j < r.value ==> Complete(ps[j])
  {
    if ps == [] then None
    else if !Complete(ps[0]) then Some(0)
    else match FirstIncomplete(ps[1..])
      case None => None
      case Some(k) => Some(k + 1)
  }

  /** `FirstIncomplete` reports index `k` exactly when `k` is the lowest index
      of an incomplete entry. */
  lemma FirstIncompleteSpec(ps: seq<Passenger>, k: nat)
    ensures FirstIncomplete(ps) == Some(k) <==>
      k < |ps| && !Complete(ps[k]) && forall j :: 0 <= j < k ==> Complete(ps[j])
  {
  }

  /** Editing an optional field of any entry leaves the validation result as it was. */
  lemma {:induction false} FirstIncompleteIgnoresOptional(ps: seq<Passenger>, i: nat, f: Field, v: string)
    requires i < |ps| && !IsRequired(f)
    ensures FirstIncomplete(ps[i := With(ps[i], f, v)]) == FirstIncomplete(ps)
  {
    var qs := ps[i := With(ps[i], f, v)];
    if i > 0 && Complete(ps[0]) {
      assert qs[1..] == ps[1..][i - 1 := With(ps[i], f, v)];
      FirstIncompleteIgnoresOptional(ps[1..], i - 1, f, v);
    }
  }

  /** Adding passengers to a form whose entries are all complete makes the
      first added slot the one validation reports. */
  lemma GrowingReportsFirstNewSlot(ps: seq<Passenger>, count: nat)
    requires FirstIncomplete(ps) == None && count > |ps|
    ensures FirstIncomplete(Resized(ps, count)) == Some(|ps|)
  {
    var r := Resized(ps, count);
    assert forall i :: 0 <= i < |ps| ==> Complete(ps[i]);
    assert !Complete(r[|ps|]) by {
      assert r[|ps|] == Blank;
    }
    assert forall j :: 0 <= j < |ps| ==> Complete(r[j]) by {
      forall j | 0 <= j < |ps| ensures Complete(r[j]) {
        assert r[j] == ps[j];
      }
    }
    FirstIncompleteSpec(r, |ps|);
  }

  // ----- Rows of the `passengers` table -----

  /** One row of the `passengers` table; `None` is SQL `NULL`. */
  datatype PassengerRecord = PassengerRecord(
    bookingId: string,
    firstName: string,
    lastName: string,
    dateOfBirth: string,
    passportNumber: Option<string>,
    nationality: Option<string>)

  /** `s || null`: the empty string becomes `null`, any other string is kept. */
  function OrNull(s: string): (r: Option<string>)
    ensures r.GetOr("") == s
    ensures r == None <==> s == ""
  {
    if s == "" then None else Some(s)
  }

  /** The row written for one form entry of booking `bookingId`: it carries the
      booking id, reads back to the entry, and holds `NULL` in an optional
      column exactly when that field was left empty. */
  function ToRecord(p: Passenger, bookingId: string): (r: PassengerRecord)
    ensures r.bookingId == bookingId
    ensures FromRecord(r) == p
    ensures r.passportNumber == None <==> p.passportNumber == ""
    ensures r.nationality == None <==> p.nationality == ""
  {
    PassengerRecord(bookingId, p.firstName, p.lastName, p.dateOfBirth,
                    OrNull(p.passportNumber), OrNull(p.nationality))
  }

  /** The form entry a row was written from: `NULL` reads back as the empty string. */
  function FromRecord(r: PassengerRecord): Passenger {
    Passenger(r.firstName, r.lastName, r.dateOfBirth,
              r.passportNumber.GetOr(""), r.nationality.GetOr(""))
  }

  /** `passengers.map(p => ({ booking_id, ... }))`: one row per entry, in order. */
  function PassengerRecords(ps: seq<Passenger>, bookingId: string): (rs: seq<PassengerRecord>)
    ensures |rs| == |ps|
    ensures forall i :: 0 <= i < |rs| ==> rs[i].bookingId == bookingId
    ensures forall i :: 0 <= i < |rs| ==> FromRecord(rs[i]) == ps[i]
  {
    seq(|ps|, i requires 0 <= i < |ps| => ToRecord(ps[i], bookingId))
  }

  /** Required fields are copied verbatim and every optional field is `NULL`
      exactly when it was left empty in the form. */
  lemma PassengerRecordsFields(ps: seq<Passenger>, bookingId: string, i: nat)
    requires i < |ps|
    ensures PassengerRecords(ps, bookingId)[i].firstName == ps[i].firstName
    ensures PassengerRecords(ps, bookingId)[i].lastName == ps[i].lastName
    ensures PassengerRecords(ps, bookingId)[i].dateOfBirth == ps[i].dateOfBirth
    ensures PassengerRecords(ps, bookingId)[i].passportNumber == None <==> ps[i].passportNumber == ""
    ensures PassengerRecords(ps, bookingId)[i].nationality == None <==> ps[i].nationality == ""
  {
  }
}
