/** The browser-only booking store of `app.js`: a map from a `YYYY-MM-DD` date to the list of that day's
    bookings, and the operations the page performs on it. Dialogs (`alert`, `confirm`, `prompt`) and form
    fields become parameters and a `Notice` naming the message shown; persisting to `localStorage` is
    left out. An exception the page would throw leaves the store as it was and is the `TypeError` notice. */
module LocalStore {
  import opened Wrappers
  import opened Text
  import opened Seqs
  import opened Ordering
  import opened Slots
  import opened Validation

  datatype Booking = Booking(slotIndex: int, chair: string, name: string, email: string, time: string)

  type Store = map<string, seq<Booking>>

  /** What the page tells the user after an operation. */
  datatype Notice =
    | EmptyName
    | EmptyEmail
    | InvalidEmail
    | SlotTaken
    | Booked
    | NotFound
    | Removed
    | Incomplete
    | NoEdit
    | Updated
    | Unchanged
    | NoBookings
    | Cancelled
    | Reset
    | TypeError

  /** The booking sits in this slot and chair. */
  predicate Holds(b: Booking, slotIndex: int, chair: string) {
    b.slotIndex == slotIndex && b.chair == chair
  }

  /** Two bookings of one day in different places. */
  predicate Distinct(a: Booking, b: Booking) {
    !Holds(b, a.slotIndex, a.chair)
  }

  /** No slot and chair is booked twice on any day. */
  ghost predicate Unique(s: Store) {
    forall d :: d in s ==> forall i, j :: 0 <= i < j < |s[d]| ==> Distinct(s[d][i], s[d][j])
  }

  /** No day is kept with an empty list. */
  ghost predicate NoEmptyDays(s: Store) {
    forall d :: d in s ==> |s[d]| > 0
  }

  ghost predicate Valid(s: Store) {
    Unique(s) && NoEmptyDays(s)
  }

  /** `getBookingsForDate`: the day's list, or none. */
  function BookingsForDate(s: Store, date: string): seq<Booking> {
    if date in s then s[date] else []
  }

  predicate TakenOn(s: Store, date: string, slotIndex: int, chair: string) {
    exists i :: 0 <= i < |BookingsForDate(s, date)| && Holds(BookingsForDate(s, date)[i], slotIndex, chair)
  }

  // ---------------------------------------------------------------------------
  // addBooking, removeBooking, updateBooking
  // ---------------------------------------------------------------------------

  /** `addBooking`: appends to the day's list, creating it when the day has none. */
  function AddBooking(s: Store, date: string, b: Booking): (s': Store)
    ensures date in s' && s'[date] == BookingsForDate(s, date) + [b]
    ensures forall d :: d != date ==> (d in s' <==> d in s) && (d in s ==> s'[d] == s[d])
  {
    s[date := BookingsForDate(s, date) + [b]]
  }

  /** Adding to a free place keeps both invariants. */
  lemma AddKeepsValid(s: Store, date: string, b: Booking)
    requires Valid(s) && !TakenOn(s, date, b.slotIndex, b.chair)
    ensures Valid(AddBooking(s, date, b))
  {
    var s' := AddBooking(s, date, b);
    var before := BookingsForDate(s, date);
    forall i, j | 0 <= i < j < |s'[date]|
      ensures Distinct(s'[date][i], s'[date][j])
    {
      if j == |before| {
        assert s'[date][i] == before[i];
      } else {
        assert s'[date][i] == before[i] && s'[date][j] == before[j];
      }
    }
  }

  function Unheld(bs: seq<Booking>, slotIndex: int, chair: string): seq<Booking> {
    Filter(bs, (b: Booking) => !Holds(b, slotIndex, chair))
  }

  /** `removeBooking`: drops every booking of that day in that slot and chair, and the day itself when
      nothing is left; an unknown day is ignored. */
  function RemoveBooking(s: Store, date: string, slotIndex: int, chair: string): Store {
    if date !in s then s
    else
      var kept := Unheld(s[date], slotIndex, chair);
      if |kept| == 0 then s - {date} else s[date := kept]
  }

  /** What `removeBooking` leaves: every other day untouched; on that day exactly the bookings elsewhere,
      in their order; and the day only if something is left. */
  lemma RemoveBookingMeaning(s: Store, date: string, slotIndex: int, chair: string)
    ensures var s' := RemoveBooking(s, date, slotIndex, chair);
      && (forall d :: d != date ==> (d in s' <==> d in s) && (d in s' ==> s'[d] == s[d]))
      && (forall b :: date in s' && b in s'[date] <==> date in s && b in s[date] && !Holds(b, slotIndex, chair))
      && (date in s' ==> date in s && |s'[date]| > 0 && IsSubsequence(s'[date], s[date]))
  {
    if date in s {
      FilterMultiset(s[date], (b: Booking) => !Holds(b, slotIndex, chair));
    }
  }

  lemma RemoveKeepsValid(s: Store, date: string, slotIndex: int, chair: string)
    requires Valid(s)
    ensures Valid(RemoveBooking(s, date, slotIndex, chair))
  {
    if date in s {
      FilterPreservesPairwise(s[date], (b: Booking) => !Holds(b, slotIndex, chair), Distinct);
    }
  }

  /** `updateBooking`: remove the old place, then add the new booking. */
  function UpdateBooking(s: Store, date: string, oldSlot: int, oldChair: string, b: Booking): Store {
    AddBooking(RemoveBooking(s, date, oldSlot, oldChair), date, b)
  }

  /** Moving a booking keeps both invariants as long as its new place is the old one or was free. */
  lemma UpdateKeepsValid(s: Store, date: string, oldSlot: int, oldChair: string, b: Booking)
    requires Valid(s)
    requires Holds(b, oldSlot, oldChair) || !TakenOn(s, date, b.slotIndex, b.chair)
    ensures Valid(UpdateBooking(s, date, oldSlot, oldChair, b))
  {
    var mid := RemoveBooking(s, date, oldSlot, oldChair);
    RemoveKeepsValid(s, date, oldSlot, oldChair);
    RemoveBookingMeaning(s, date, oldSlot, oldChair);
    var bs := BookingsForDate(mid, date);
    forall i | 0 <= i < |bs|
      ensures !Holds(bs[i], b.slotIndex, b.chair)
    {
      assert bs[i] in mid[date];
      var k :| 0 <= k < |s[date]| && s[date][k] == bs[i];
      if !Holds(b, oldSlot, oldChair) {
        assert BookingsForDate(s, date) == s[date];
        assert !(0 <= k < |BookingsForDate(s, date)| && Holds(BookingsForDate(s, date)[k], b.slotIndex, b.chair));
      }
    }
    AddKeepsValid(mid, date, b);
  }

  // ---------------------------------------------------------------------------
  // getAllBookings
  // ---------------------------------------------------------------------------

  /** A booking together with its day, as the admin table lists it. */
  datatype Entry = Entry(date: string, booking: Booking)

  function Tag(date: string, bs: seq<Booking>): (r: seq<Entry>)
    ensures |r| == |bs|
  {
    if |bs| == 0 then [] else [Entry(date, bs[0])] + Tag(date, bs[1..])
  }

  lemma {:induction false} TagMultiset(date: string, bs: seq<Booking>)
    ensures forall e :: multiset(Tag(date, bs))[e] == if e.date == date then multiset(bs)[e.booking] else 0
  {
    if |bs| > 0 {
      TagMultiset(date, bs[1..]);
      assert bs == [bs[0]] + bs[1..];
      assert multiset(bs) == multiset{bs[0]} + multiset(bs[1..]);
    }
  }

  /** The two nested `forEach` loops: each day's bookings, days in `keys` order. */
  function Flatten(s: Store, keys: seq<string>): seq<Entry>
    requires forall k :: k in keys ==> k in s
  {
    if |keys| == 0 then [] else Tag(keys[0], s[keys[0]]) + Flatten(s, keys[1..])
  }

  /** Over distinct days, every booking appears once per occurrence in its day's list, tagged with the
      day, and nothing else appears. */
  lemma {:induction false} FlattenMultiset(s: Store, keys: seq<string>)
    requires forall k :: k in keys ==> k in s
    requires forall i, j :: 0 <= i < j < |keys| ==> keys[i] != keys[j]
    ensures forall e :: multiset(Flatten(s, keys))[e] == if e.date in keys then multiset(s[e.date])[e.booking] else 0
  {
    if |keys| > 0 {
      FlattenMultiset(s, keys[1..]);
      TagMultiset(keys[0], s[keys[0]]);
      forall e
        ensures multiset(Flatten(s, keys))[e] == if e.date in keys then multiset(s[e.date])[e.booking] else 0
      {
        assert keys == [keys[0]] + keys[1..];
        if e.date == keys[0] {
          assert e.date !in keys[1..];
        }
      }
    }
  }

  /** The comparator of `getAllBookings`: day, then slot index; the chair plays no part. */
  function EntryKey(e: Entry): SortKey {
    SortKey(e.date, e.booking.slotIndex, "")
  }

  /** `getAllBookings`; `keys` is the order `Object.keys` yields, each day once. */
  function AllBookings(s: Store, keys: seq<string>): seq<Entry>
    requires forall k :: k in keys <==> k in s
    requires forall i, j :: 0 <= i < j < |keys| ==> keys[i] != keys[j]
  {
    SortBy(Flatten(s, keys), EntryKey)
  }

  /** Every booking of the store once per occurrence, tagged with its day, ordered by day and slot. */
  lemma AllBookingsMeaning(s: Store, keys: seq<string>)
    requires forall k :: k in keys <==> k in s
    requires forall i, j :: 0 <= i < j < |keys| ==> keys[i] != keys[j]
    ensures forall e :: multiset(AllBookings(s, keys))[e] == if e.date in s then multiset(s[e.date])[e.booking] else 0
    ensures SortedBy(AllBookings(s, keys), EntryKey)
  {
    FlattenMultiset(s, keys);
  }

  // ---------------------------------------------------------------------------
  // confirmBooking
  // ---------------------------------------------------------------------------

  /** The form checks of `confirmBooking` on the trimmed name and e-mail, in the page's order: the first
      that fails, or `None`. */
  function FormCheck(name: string, email: string): (r: Option<Notice>)
    ensures r == Some(EmptyName) <==> name == ""
    ensures r == Some(EmptyEmail) <==> name != "" && email == ""
    ensures r == Some(InvalidEmail) <==> name != "" && email != "" && !ClientValidateEmail(email)
    ensures r.None? <==> name != "" && ClientValidateEmail(email)
  {
    if name == "" then Some(EmptyName)
    else if email == "" then Some(EmptyEmail)
    else if !ClientValidateEmail(email) then Some(InvalidEmail)
    else None
  }

  /** The part of `confirmBooking` after the form checks: refuse a taken place, else record the booking
      with the slot's start as its time label. An index outside the grid makes the page throw. */
  function Place(slots: seq<Slot>, s: Store, date: string, slotIndex: int, chair: string, name: string, email: string)
    : (Notice, Store)
  {
    if TakenOn(s, date, slotIndex, chair) then (SlotTaken, s)
    else if !(0 <= slotIndex < |slots|) then (TypeError, s)
    else (Booked, AddBooking(s, date, Booking(slotIndex, chair, name, email, TimeToStr(slots[slotIndex].start))))
  }

  /** A taken place is refused and nothing changes; a free place inside the grid gains exactly the new
      booking at the end of its day's list, and every other day stays as it was. */
  lemma PlaceOutcome(slots: seq<Slot>, s: Store, date: string, slotIndex: int, chair: string, name: string, email: string)
    ensures var (n, s') := Place(slots, s, date, slotIndex, chair, name, email);
      && (n == SlotTaken <==> TakenOn(s, date, slotIndex, chair))
      && (n == Booked <==> !TakenOn(s, date, slotIndex, chair) && 0 <= slotIndex < |slots|)
      && (n == SlotTaken || n == Booked || n == TypeError)
      && (n != Booked ==> s' == s)
      && (n == Booked ==>
            && s'[date] == BookingsForDate(s, date) + [Booking(slotIndex, chair, name, email, TimeToStr(slots[slotIndex].start))]
            && forall d :: d != date ==> (d in s' <==> d in s) && (d in s ==> s'[d] == s[d]))
  {
  }

  lemma PlaceKeepsValid(slots: seq<Slot>, s: Store, date: string, slotIndex: int, chair: string, name: string, email: string)
    requires Valid(s)
    ensures Valid(Place(slots, s, date, slotIndex, chair, name, email).1)
  {
    if !TakenOn(s, date, slotIndex, chair) && 0 <= slotIndex < |slots| {
      AddKeepsValid(s, date, Booking(slotIndex, chair, name, email, TimeToStr(slots[slotIndex].start)));
    }
  }

  /** `confirmBooking` on the selected day with the form's slot index, chair, name and e-mail; `slots` is
      the grid `generateTimeSlots` builds. */
  function ConfirmBooking(slots: seq<Slot>, s: Store, date: string, slotIndex: int, chair: string, rawName: string, rawEmail: string)
    : (Notice, Store)
  {
    var name := JsTrim(rawName);
    var email := JsTrim(rawEmail);
    match FormCheck(name, email)
    case Some(n) => (n, s)
    case None => Place(slots, s, date, slotIndex, chair, name, email)
  }

  /** The checks run in order (name, e-mail present, e-mail allowed, place free); any failure leaves the
      store alone; success appends exactly one booking, whose time label is the slot's start. */
  lemma ConfirmOutcome(slots: seq<Slot>, s: Store, date: string, slotIndex: int, chair: string, rawName: string, rawEmail: string)
    ensures var (n, s') := ConfirmBooking(slots, s, date, slotIndex, chair, rawName, rawEmail);
      var name, email := JsTrim(rawName), JsTrim(rawEmail);
      && (n != Booked ==> s' == s)
      && (n == EmptyName <==> name == "")
      && (n == EmptyEmail <==> name != "" && email == "")
      && (n == InvalidEmail <==> name != "" && email != "" && !ClientValidateEmail(email))
      && (n == SlotTaken <==> name != "" && ClientValidateEmail(email) && TakenOn(s, date, slotIndex, chair))
      && (n == Booked <==> name != "" && ClientValidateEmail(email) && !TakenOn(s, date, slotIndex, chair)
                           && 0 <= slotIndex < |slots|)
      && (n == Booked ==>
            && s'[date] == BookingsForDate(s, date) + [Booking(slotIndex, chair, name, email, TimeToStr(slots[slotIndex].start))]
            && forall d :: d != date ==> (d in s' <==> d in s) && (d in s ==> s'[d] == s[d]))
  {
    PlaceOutcome(slots, s, date, slotIndex, chair, JsTrim(rawName), JsTrim(rawEmail));
  }

  lemma ConfirmKeepsValid(slots: seq<Slot>, s: Store, date: string, slotIndex: int, chair: string, rawName: string, rawEmail: string)
    requires Valid(s)
    ensures Valid(ConfirmBooking(slots, s, date, slotIndex, chair, rawName, rawEmail).1)
  {
    PlaceKeepsValid(slots, s, date, slotIndex, chair, JsTrim(rawName), JsTrim(rawEmail));
  }

  // ---------------------------------------------------------------------------
  // deleteByEmail
  // ---------------------------------------------------------------------------

  function WithoutEmail(bs: seq<Booking>, email: string): seq<Booking> {
    Filter(bs, (b: Booking) => b.email != email)
  }

  /** The store after the per-day filter of `deleteByEmail`, days left empty removed. */
  function PurgeEmail(s: Store, email: string): Store {
    map d | d in s && |WithoutEmail(s[d], email)| > 0 :: WithoutEmail(s[d], email)
  }

  predicate HasEmail(s: Store, email: string) {
    exists d, i :: d in s && 0 <= i < |s[d]| && s[d][i].email == email
  }

  /** `deleteByEmail` with the text typed in the field. */
  function DeleteByEmail(s: Store, rawEmail: string): (Notice, Store) {
    var email := JsTrim(rawEmail);
    if email == "" then (EmptyEmail, s)
    else if !ClientValidateEmail(email) then (InvalidEmail, s)
    else if !HasEmail(s, email) then (NotFound, PurgeEmail(s, email))
    else (Removed, PurgeEmail(s, email))
  }

  /** Purging an address removes exactly the bookings with that address, on every day, and keeps the
      rest in order. */
  lemma PurgeEmailMeaning(s: Store, email: string)
    ensures var s' := PurgeEmail(s, email);
      && (forall d :: d in s' ==> d in s && |s'[d]| > 0 && IsSubsequence(s'[d], s[d]))
      && (forall d, b :: d in s' && b in s'[d] <==> d in s && b in s[d] && b.email != email)
  {
    forall d | d in s
      ensures IsSubsequence(WithoutEmail(s[d], email), s[d])
    {
      FilterMultiset(s[d], (b: Booking) => b.email != email);
    }
  }

  /** When no booking carries the address, the store is unchanged (under the no-empty-day invariant). */
  lemma PurgeEmailNoMatch(s: Store, email: string)
    requires NoEmptyDays(s) && !HasEmail(s, email)
    ensures PurgeEmail(s, email) == s
  {
    forall d | d in s
      ensures WithoutEmail(s[d], email) == s[d]
    {
      FilterKeepsAll(s[d], (b: Booking) => b.email != email);
    }
  }

  /** The checks and the outcome of `deleteByEmail`: a blank or refused address changes nothing;
      otherwise exactly the bookings whose address is strictly equal are gone, and the page reports
      whether there were any. */
  lemma DeleteByEmailOutcome(s: Store, rawEmail: string)
    requires NoEmptyDays(s)
    ensures var (n, s') := DeleteByEmail(s, rawEmail);
      var email := JsTrim(rawEmail);
      && (n == EmptyEmail <==> email == "")
      && (n == InvalidEmail <==> email != "" && !ClientValidateEmail(email))
      && (n == EmptyEmail || n == InvalidEmail || n == NotFound ==> s' == s)
      && (n == NotFound <==> ClientValidateEmail(email) && !HasEmail(s, email))
      && (n == Removed <==> ClientValidateEmail(email) && HasEmail(s, email))
      && (n == Removed ==> forall d, b :: d in s' && b in s'[d] <==> d in s && b in s[d] && b.email != email)
  {
    var email := JsTrim(rawEmail);
    if !HasEmail(s, email) {
      PurgeEmailNoMatch(s, email);
    }
    PurgeEmailMeaning(s, email);
  }

  lemma DeleteByEmailKeepsValid(s: Store, rawEmail: string)
    requires Valid(s)
    ensures Valid(DeleteByEmail(s, rawEmail).1)
  {
    var email := JsTrim(rawEmail);
    var s' := PurgeEmail(s, email);
    forall d | d in s'
      ensures forall i, j :: 0 <= i < j < |s'[d]| ==> Distinct(s'[d][i], s'[d][j])
    {
      FilterPreservesPairwise(s[d], (b: Booking) => b.email != email, Distinct);
    }
  }

  // ---------------------------------------------------------------------------
  // saveEditBooking
  // ---------------------------------------------------------------------------

  /** The booking the edit dialog was opened for. */
  datatype EditTarget = EditTarget(date: string, slotIndex: int, chair: string)

  /** `Array.prototype.find` as an index: the first booking in that place. */
  function FirstHolding(bs: seq<Booking>, slotIndex: int, chair: string): (r: Option<nat>)
    ensures r.Some? ==> r.value < |bs| && Holds(bs[r.value], slotIndex, chair)
    ensures r.Some? ==> forall j :: 0 <= j < r.value ==> !Holds(bs[j], slotIndex, chair)
    ensures r.None? ==> forall j :: 0 <= j < |bs| ==> !Holds(bs[j], slotIndex, chair)
  {
    if |bs| == 0 then None
    else if Holds(bs[0], slotIndex, chair) then Some(0)
    else
      match FirstHolding(bs[1..], slotIndex, chair)
      case None => None
      case Some(k) => Some(k + 1)
  }

  /** The part of `saveEditBooking` after the form checks: rename the first booking in the target's place.
      A day missing from the store makes the page throw. */
  function Edit(s: Store, t: EditTarget, name: string, email: string): (Notice, Store) {
    if t.date !in s then (TypeError, s)
    else
      match FirstHolding(s[t.date], t.slotIndex, t.chair)
      case None => (Unchanged, s)
      case Some(k) => (Updated, s[t.date := s[t.date][k := s[t.date][k].(name := name, email := email)]])
  }

  /** An edit changes only the name and e-mail of one booking, the first in the target's place; every other
      booking, every other field and every other day stay as they were. */
  lemma EditOutcome(s: Store, t: EditTarget, name: string, email: string)
    ensures var (n, s') := Edit(s, t, name, email);
      && (n != Updated ==> s' == s)
      && (n == Updated <==> t.date in s && exists k :: 0 <= k < |s[t.date]| && Holds(s[t.date][k], t.slotIndex, t.chair))
      && (n == Updated ==>
            && t.date in s'
            && (forall d :: d != t.date ==> (d in s' <==> d in s) && (d in s' ==> s'[d] == s[d]))
            && |s'[t.date]| == |s[t.date]|
            && exists k :: 0 <= k < |s[t.date]| && Holds(s[t.date][k], t.slotIndex, t.chair)
                 && (forall j :: 0 <= j < k ==> !Holds(s[t.date][j], t.slotIndex, t.chair))
                 && s'[t.date][k] == s[t.date][k].(name := name, email := email)
                 && forall j :: 0 <= j < |s[t.date]| && j != k ==> s'[t.date][j] == s[t.date][j])
  {
    if t.date in s {
      var r := FirstHolding(s[t.date], t.slotIndex, t.chair);
      if r.Some? {
        var k := r.value;
        var s' := Edit(s, t, name, email).1;
        assert s'[t.date][k] == s[t.date][k].(name := name, email := email);
      }
    }
  }

  lemma EditKeepsValid(s: Store, t: EditTarget, name: string, email: string)
    requires Valid(s)
    ensures Valid(Edit(s, t, name, email).1)
  {
    if t.date in s && FirstHolding(s[t.date], t.slotIndex, t.chair).Some? {
      var bs := s[t.date];
      var k := FirstHolding(bs, t.slotIndex, t.chair).value;
      var bs' := bs[k := bs[k].(name := name, email := email)];
      forall i, j | 0 <= i < j < |bs'|
        ensures Distinct(bs'[i], bs'[j])
      {
        assert Distinct(bs[i], bs[j]);
        assert bs'[i].slotIndex == bs[i].slotIndex && bs'[i].chair == bs[i].chair;
        assert bs'[j].slotIndex == bs[j].slotIndex && bs'[j].chair == bs[j].chair;
      }
      assert Edit(s, t, name, email).1 == s[t.date := bs'];
    }
  }

  /** `saveEditBooking` with the dialog's target (`None` when no edit is open) and the edited name and
      e-mail. */
  function SaveEditBooking(s: Store, target: Option<EditTarget>, rawName: string, rawEmail: string): (Notice, Store) {
    var name := JsTrim(rawName);
    var email := JsTrim(rawEmail);
    if target.None? then (NoEdit, s)
    else if name == "" || email == "" then (Incomplete, s)
    else if !ClientValidateEmail(email) then (InvalidEmail, s)
    else Edit(s, target.value, name, email)
  }

  /** The checks of `saveEditBooking` in order; any failure leaves the store alone, and only an edit with a
      name and an allowed e-mail reaches the store. */
  lemma SaveEditOutcome(s: Store, target: Option<EditTarget>, rawName: string, rawEmail: string)
    ensures var (n, s') := SaveEditBooking(s, target, rawName, rawEmail);
      var name, email := JsTrim(rawName), JsTrim(rawEmail);
      && (n == NoEdit <==> target.None?)
      && (n == Incomplete <==> target.Some? && (name == "" || email == ""))
      && (n == InvalidEmail <==> target.Some? && name != "" && email != "" && !ClientValidateEmail(email))
      && (target.Some? && name != "" && ClientValidateEmail(email) ==> (n, s') == Edit(s, target.value, name, email))
      && (n != Updated ==> s' == s)
  {
    if target.Some? {
      EditOutcome(s, target.value, JsTrim(rawName), JsTrim(rawEmail));
    }
  }

  lemma SaveEditKeepsValid(s: Store, target: Option<EditTarget>, rawName: string, rawEmail: string)
    requires Valid(s)
    ensures Valid(SaveEditBooking(s, target, rawName, rawEmail).1)
  {
    if target.Some? {
      EditKeepsValid(s, target.value, JsTrim(rawName), JsTrim(rawEmail));
    }
  }

  // ---------------------------------------------------------------------------
  // resetDateBookings, resetAllBookings
  // ---------------------------------------------------------------------------

  /** The property names every plain object inherits from `Object.prototype`. The page's store is a plain
      object, so looking one of these up yields a function (truthy) even though no day has that name. */
  const InheritedNames: set<string> := {
    "constructor", "hasOwnProperty", "isPrototypeOf", "propertyIsEnumerable", "toString", "toLocaleString",
    "valueOf", "__proto__", "__defineGetter__", "__defineSetter__", "__lookupGetter__", "__lookupSetter__"
  }

  /** `bookings[date]` is truthy: an own day (its array, even an empty one, is truthy) or an inherited name. */
  predicate HasEntry(s: Store, name: string) {
    name in s || name in InheritedNames
  }

  /** `resetDateBookings` with the text typed at the prompt (`None` when cancelled) and the answer to the
      confirmation. `delete` only removes own days, so an inherited name leaves the store as it was. */
  function ResetDateBookings(s: Store, input: Option<string>, confirmed: bool): (Notice, Store) {
    if input.None? || input.value == "" then (Cancelled, s)
    else if !HasEntry(s, input.value) then (NoBookings, s)
    else if !confirmed then (Cancelled, s)
    else (Reset, s - {input.value})
  }

  /** Only a confirmed reset of a day that has bookings changes the store, and it removes that day alone. */
  lemma ResetDateOutcome(s: Store, input: Option<string>, confirmed: bool)
    ensures var (n, s') := ResetDateBookings(s, input, confirmed);
      && (n != Reset ==> s' == s)
      && (n == Reset <==> input.Some? && input.value != "" && (input.value in s || input.value in InheritedNames) && confirmed)
      && (n == NoBookings <==> input.Some? && input.value != "" && input.value !in s && input.value !in InheritedNames)
      && (n == Reset ==> input.value !in s' && forall d :: d != input.value ==> (d in s' <==> d in s) && (d in s' ==> s'[d] == s[d]))
  {
  }

  /** Typing `constructor` at the prompt reads as a day with bookings: once confirmed, the page reports a
      reset although the store is unchanged. */
  lemma ResetInheritedName(s: Store)
    requires "constructor" !in s
    ensures ResetDateBookings(s, Some("constructor"), true) == (Reset, s)
  {
    assert s - {"constructor"} == s;
  }

  lemma ResetDateKeepsValid(s: Store, input: Option<string>, confirmed: bool)
    requires Valid(s)
    ensures Valid(ResetDateBookings(s, input, confirmed).1)
  {
  }

  /** `resetAllBookings`: a confirmed reset empties the store. */
  function ResetAll(s: Store, confirmed: bool): (s': Store)
    ensures confirmed ==> |s'| == 0
    ensures !confirmed ==> s' == s
  {
    if confirmed then map[] else s
  }
}
