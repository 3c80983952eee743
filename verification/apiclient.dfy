/** The server-backed page `app-api.js`: the bookings it last loaded are rows of the `bookings` table,
    and the page derives from them the day's list, the admin table, the slot grid and the summary.
    Building a booking request is modelled up to the payload; sending it is the server's `POST`. */
module ApiClient {
  import opened Wrappers
  import opened Text
  import opened Seqs
  import opened Ordering
  import opened Calendar
  import opened Slots
  import opened Validation
  import opened LocalStore
  import Server

  /** A booking as the page holds it: a row as GET lists it. */
  type Row = Server.Listed

  // ---------------------------------------------------------------------------
  // getBookingsForDate, getAllBookings
  // ---------------------------------------------------------------------------

  /** `getBookingsForDate`: the loaded rows of that day, in the order loaded. */
  function DayRows(rows: seq<Row>, date: string): (r: seq<Row>)
    ensures |r| <= |rows|
  {
    Filter(rows, (b: Row) => b.bookingDate == date)
  }

  /** Exactly the rows of that day, each as often as it was loaded, in their original order. */
  lemma DayRowsMeaning(rows: seq<Row>, date: string)
    ensures var r := DayRows(rows, date);
      && (forall b :: b in r <==> b in rows && b.bookingDate == date)
      && (forall b :: multiset(r)[b] == if b.bookingDate == date then multiset(rows)[b] else 0)
      && IsSubsequence(r, rows)
  {
    FilterMultiset(rows, (b: Row) => b.bookingDate == date);
  }

  /** The comparator of `getAllBookings`: `booking_date` by `localeCompare`, then `slot_index`. On the
      `YYYY-MM-DD` strings the server stores, `localeCompare` orders as code points do. */
  function ClientKey(b: Row): SortKey {
    SortKey(b.bookingDate, b.slotIndex, "")
  }

  function AllRows(rows: seq<Row>): seq<Row> {
    SortBy(rows, ClientKey)
  }

  /** `getAllBookings` is a permutation of the loaded rows, ordered by day and, within a day, by slot. */
  lemma AllRowsMeaning(rows: seq<Row>)
    ensures var r := AllRows(rows);
      && multiset(r) == multiset(rows)
      && forall i, j :: 0 <= i < j < |r| ==>
           StrLt(r[i].bookingDate, r[j].bookingDate)
           || (r[i].bookingDate == r[j].bookingDate && r[i].slotIndex <= r[j].slotIndex)
  {
    var r := AllRows(rows);
    forall i, j | 0 <= i < j < |r|
      ensures StrLt(r[i].bookingDate, r[j].bookingDate)
              || (r[i].bookingDate == r[j].bookingDate && r[i].slotIndex <= r[j].slotIndex)
    {
      assert KeyLe(ClientKey(r[i]), ClientKey(r[j]));
    }
  }

  // ---------------------------------------------------------------------------
  // The slot grid of renderSlots
  // ---------------------------------------------------------------------------

  /** One slot's chairs: the booking shown in each chair that has one. */
  type Cells = map<string, Row>

  /** `if (slots[b.slot_index]) slots[b.slot_index].chairs[b.chair] = b`: a row whose index is outside
      the grid is skipped. */
  function Put(grid: seq<Cells>, b: Row): (g: seq<Cells>)
    ensures |g| == |grid|
  {
    if 0 <= b.slotIndex < |grid| then grid[b.slotIndex := grid[b.slotIndex][b.chair := b]] else grid
  }

  /** The `forEach` over the day's rows, in order; later rows overwrite earlier ones in the same place. */
  function Fill(grid: seq<Cells>, bs: seq<Row>): (g: seq<Cells>)
    ensures |g| == |grid|
  {
    if |bs| == 0 then grid else Put(Fill(grid, bs[..|bs| - 1]), bs[|bs| - 1])
  }

  /** The grid `renderSlots` starts from: every chair of every slot free. */
  function EmptyGrid(n: nat): (g: seq<Cells>)
    ensures |g| == n && forall i :: 0 <= i < n ==> g[i] == map[]
  {
    seq(n, _ => map[])
  }

  /** The row sits in slot `i`, chair `chair`. */
  predicate At(b: Row, i: int, chair: string) {
    b.slotIndex == i && b.chair == chair
  }

  /** After the fill, a chair of slot `i` shows a booking iff it had one or some row names that place;
      it then shows the last such row; a place no row names keeps what it had. */
  lemma {:induction false} FillMeaning(grid: seq<Cells>, bs: seq<Row>, i: int, c: string)
    requires 0 <= i < |grid|
    ensures var g := Fill(grid, bs);
      && (c in g[i] <==> c in grid[i] || exists k :: 0 <= k < |bs| && At(bs[k], i, c))
      && ((exists k :: 0 <= k < |bs| && At(bs[k], i, c)) ==>
            exists k :: 0 <= k < |bs| && At(bs[k], i, c) && g[i][c] == bs[k]
              && forall j :: k < j < |bs| ==> !At(bs[j], i, c))
      && ((forall k :: 0 <= k < |bs| ==> !At(bs[k], i, c)) && c in grid[i] ==> g[i][c] == grid[i][c])
    decreases |bs|
  {
    if |bs| > 0 {
      var n := |bs| - 1;
      var p, last := bs[..n], bs[n];
      FillMeaning(grid, p, i, c);
      var g', g := Fill(grid, p), Fill(grid, bs);
      assert g == Put(g', last);
      assert forall k :: 0 <= k < n ==> p[k] == bs[k];
      if At(last, i, c) {
        assert g[i][c] == bs[n];
      } else {
        assert c in g[i] <==> c in g'[i];
        assert c in g[i] ==> g[i][c] == g'[i][c];
        if exists k :: 0 <= k < |bs| && At(bs[k], i, c) {
          var k :| 0 <= k < |bs| && At(bs[k], i, c);
          assert k < n && At(p[k], i, c);
        }
      }
    }
  }

  /** On the fresh grid every shown booking is a loaded row whose slot index and chair are that cell's:
      a row whose index has no slot (such as index 7, which the server accepts, on the seven-slot grid)
      is never shown. */
  lemma FillShowsOnlyItsPlace(n: nat, bs: seq<Row>)
    ensures var g := Fill(EmptyGrid(n), bs);
      forall i, c :: 0 <= i < n && c in g[i] ==> g[i][c] in bs && At(g[i][c], i, c)
  {
    var g := Fill(EmptyGrid(n), bs);
    forall i, c | 0 <= i < n && c in g[i]
      ensures g[i][c] in bs && At(g[i][c], i, c)
    {
      FillMeaning(EmptyGrid(n), bs, i, c);
    }
  }

  /** A row whose slot index lies outside the grid is dropped: it appears in no cell. */
  lemma OutOfRangeDropped(n: nat, bs: seq<Row>, b: Row)
    requires !(0 <= b.slotIndex < n)
    ensures var g := Fill(EmptyGrid(n), bs);
      forall i, c :: 0 <= i < n && c in g[i] ==> g[i][c] != b
  {
    FillShowsOnlyItsPlace(n, bs);
  }

  // ---------------------------------------------------------------------------
  // updateSummary
  // ---------------------------------------------------------------------------

  datatype Summary = Summary(total: int, taken: int, available: int)

  /** `updateSummary`: places on the grid, rows loaded for the day, and their difference. */
  function UpdateSummary(slots: seq<Slot>, rows: seq<Row>, date: string): Summary {
    var total := |slots| * |Chairs|;
    var taken := |DayRows(rows, date)|;
    Summary(total, taken, total - taken)
  }

  /** Three places per slot; the taken count is the day's share of the loaded rows (the rest are other
      days'); free and taken places add up to the total. */
  lemma SummaryMeaning(slots: seq<Slot>, rows: seq<Row>, date: string)
    ensures var s := UpdateSummary(slots, rows, date);
      && s.total == 3 * |slots|
      && s.available + s.taken == s.total
      && s.taken + |Filter(rows, (b: Row) => b.bookingDate != date)| == |rows|
  {
    FilterSplitsLength(rows, (b: Row) => b.bookingDate == date, (b: Row) => b.bookingDate != date);
  }

  /** A number for each place of the grid: three per slot, one per chair. */
  function PlaceCode(b: Row): int {
    3 * b.slotIndex + if b.chair == "rojo" then 0 else if b.chair == "azul" then 1 else 2
  }

  /** Rows with pairwise different (date, slot, chair) whose places on `date` all lie on an `n`-slot grid
      number at most `3 n` on that day. */
  lemma DayRowsBound(rows: seq<Row>, date: string, n: nat)
    requires forall i, j :: 0 <= i < j < |rows| ==> Server.ListedKey(rows[i]) != Server.ListedKey(rows[j])
    requires forall b :: b in rows && b.bookingDate == date ==> 0 <= b.slotIndex < n && ValidateChair(b.chair)
    ensures |DayRows(rows, date)| <= 3 * n
  {
    var day := DayRows(rows, date);
    FilterPreservesPairwise(rows, (b: Row) => b.bookingDate == date, (a: Row, b: Row) => Server.ListedKey(a) != Server.ListedKey(b));
    var codes := seq(|day|, k requires 0 <= k < |day| => PlaceCode(day[k]));
    forall k | 0 <= k < |codes|
      ensures 0 <= codes[k] < 3 * n
    {
      assert day[k] in day;
    }
    forall i, j | 0 <= i < j < |codes|
      ensures codes[i] != codes[j]
    {
      assert day[i] in day && day[j] in day;
      assert Server.ListedKey(day[i]) != Server.ListedKey(day[j]);
    }
    DistinctBelow(codes, 3 * n);
  }

  /** When every loaded row of the day has a place on the grid and no place is held twice, the free
      count is never negative. */
  lemma SummaryNotNegative(slots: seq<Slot>, rows: seq<Row>, date: string)
    requires forall i, j :: 0 <= i < j < |rows| ==> Server.ListedKey(rows[i]) != Server.ListedKey(rows[j])
    requires forall b :: b in rows && b.bookingDate == date ==> 0 <= b.slotIndex < |slots| && ValidateChair(b.chair)
    ensures UpdateSummary(slots, rows, date).available >= 0
  {
    DayRowsBound(rows, date, |slots|);
  }

  /** Rows from a consistent table hold at most the server's 8 x 3 places a day, so the free count never
      falls below `3 |slots| - 24`: -3 on the seven-slot grid. */
  lemma SummaryFloor(slots: seq<Slot>, t: Server.Table, syntaxOk: string -> bool, date: string)
    requires Server.Consistent(t, syntaxOk)
    ensures UpdateSummary(slots, Server.Listings(t.rows), date).available >= 3 * |slots| - 24
  {
    var rows := Server.Listings(t.rows);
    forall i, j | 0 <= i < j < |rows|
      ensures Server.ListedKey(rows[i]) != Server.ListedKey(rows[j])
    {
      assert Server.Apart(t.rows[i], t.rows[j]);
    }
    forall b | b in rows && b.bookingDate == date
      ensures 0 <= b.slotIndex < 8 && ValidateChair(b.chair)
    {
      var k :| 0 <= k < |rows| && rows[k] == b;
      assert Server.RowValid(t.rows[k], syntaxOk);
    }
    DayRowsBound(rows, date, 8);
  }

  /** The chair of place code `k % 3`. */
  function ChairOf(r: int): string {
    if r == 0 then "rojo" else if r == 1 then "azul" else "amarillo"
  }

  /** The floor is reached: a Friday whose 24 places (slots 0..7, three chairs) are all booked is a
      consistent table, and on the seven-slot grid its summary shows -3 free places. */
  lemma SummaryFloorReached(slots: seq<Slot>, date: string, email: string, syntaxOk: string -> bool)
    requires ParseIsoDate(date).Some? && ServerIsFriday(ParseIsoDate(date).value)
    requires ValidateEmail(email, syntaxOk)
    ensures var rows := seq(24, k => Server.Row(k, date, k / 3, "", ChairOf(k % 3), "", email, None));
      && Server.Consistent(Server.Table(rows, 24), syntaxOk)
      && UpdateSummary(slots, Server.Listings(rows), date).available == 3 * |slots| - 24
  {
    var rows := seq(24, k => Server.Row(k, date, k / 3, "", ChairOf(k % 3), "", email, None));
    forall i | 0 <= i < |rows|
      ensures Server.RowValid(rows[i], syntaxOk) && rows[i].id < 24
    {
      assert ValidateChair(rows[i].chair);
    }
    forall i, j | 0 <= i < j < |rows|
      ensures Server.Apart(rows[i], rows[j])
    {
      assert i / 3 != j / 3 || i % 3 != j % 3;
    }
    FilterKeepsAll(Server.Listings(rows), (b: Row) => b.bookingDate == date);
  }

  // ---------------------------------------------------------------------------
  // Loading a day
  // ---------------------------------------------------------------------------

  /** `loadBookings(date)` asks the server for that day only, so the page's day filter keeps everything
      the server returned, and what it keeps is exactly the listings of the table's rows of that day. */
  lemma LoadedDayIsWholeDay(t: Server.Table, date: string, ctx: Server.Ctx)
    requires Server.PhpTruthy(date) && ValidateDate(date)
    ensures var r := Server.HandleGet(t, map["date" := date], ctx);
      && r.status == 200 && r.payload.Rows?
      && DayRows(r.payload.rows, date) == r.payload.rows
      && forall b :: b in DayRows(r.payload.rows, date) <==> b in Server.Listings(t.rows) && b.bookingDate == date
  {
    var q := map["date" := date];
    assert Server.QueryParam(q, "email").None? && Server.QueryParam(q, "id").None?;
    Server.GetMeaning(t, q, ctx);
    var sel := Server.Selection(t.rows, Some(date), None, None, ctx.sqlId);
    var rows := Server.HandleGet(t, q, ctx).payload.rows;
    assert rows == Server.Listings(sel);
    assert forall x :: x in sel <==> x in t.rows && x.bookingDate == date;
    ListedOfDay(t.rows, sel, date);
    FilterKeepsAll(rows, (b: Row) => b.bookingDate == date);
  }

  /** Listing the rows of one day selected from a table gives rows of that day, and exactly the listings
      of the table's rows of that day. */
  lemma ListedOfDay(all: seq<Server.Row>, sel: seq<Server.Row>, date: string)
    requires forall x :: x in sel <==> x in all && x.bookingDate == date
    ensures forall i :: 0 <= i < |Server.Listings(sel)| ==> Server.Listings(sel)[i].bookingDate == date
    ensures forall b :: b in Server.Listings(sel) <==> b in Server.Listings(all) && b.bookingDate == date
  {
    var rows := Server.Listings(sel);
    forall i | 0 <= i < |rows|
      ensures rows[i].bookingDate == date
    {
      assert sel[i] in sel;
    }
    forall b
      ensures b in rows <==> b in Server.Listings(all) && b.bookingDate == date
    {
      Server.ListedIn(sel, b);
      Server.ListedIn(all, b);
      if b in rows {
        var k :| 0 <= k < |sel| && Server.Listing(sel[k]) == b;
        assert sel[k] in sel;
        var i :| 0 <= i < |all| && all[i] == sel[k];
      }
      if b in Server.Listings(all) && b.bookingDate == date {
        var i :| 0 <= i < |all| && Server.Listing(all[i]) == b;
        assert all[i] in sel;
        var k :| 0 <= k < |sel| && sel[k] == all[i];
      }
    }
  }

  // ---------------------------------------------------------------------------
  // confirmBooking: the checks and the request body
  // ---------------------------------------------------------------------------

  /** What `confirmBooking` does before any request: refuse with a notice, throw on an index with no
      slot, or send the booking. */
  datatype Attempt = Refused(notice: Notice) | Thrown | Send(payload: Server.Booking)

  /** `confirmBooking` on the selected day, the form's slot index and chair, and the typed name and
      e-mail; `slots` is the grid `generateTimeSlots` builds. The checks are those of the local page. */
  function ClientConfirm(slots: seq<Slot>, date: string, slotIndex: int, chair: string, rawName: string, rawEmail: string)
    : Attempt
  {
    var name := JsTrim(rawName);
    var email := JsTrim(rawEmail);
    match FormCheck(name, email)
    case Some(n) => Refused(n)
    case None =>
      if 0 <= slotIndex < |slots| then
        Send(Server.Booking(date, slotIndex, TimeToStr(slots[slotIndex].start), chair, name, email))
      else Thrown
  }

  /** Empty name, empty e-mail and refused e-mail are caught in that order before anything is sent; a sent
      booking carries the selected day, the slot index, the trimmed name and e-mail, and as `time_slot`
      the label of that very slot. */
  lemma ClientConfirmOutcome(slots: seq<Slot>, date: string, slotIndex: int, chair: string, rawName: string, rawEmail: string)
    ensures var a := ClientConfirm(slots, date, slotIndex, chair, rawName, rawEmail);
      var name, email := JsTrim(rawName), JsTrim(rawEmail);
      && (a == Refused(EmptyName) <==> name == "")
      && (a == Refused(EmptyEmail) <==> name != "" && email == "")
      && (a == Refused(InvalidEmail) <==> name != "" && email != "" && !ClientValidateEmail(email))
      && (a.Refused? ==> a.notice in {EmptyName, EmptyEmail, InvalidEmail})
      && (a.Send? <==> name != "" && ClientValidateEmail(email) && 0 <= slotIndex < |slots|)
      && (a.Send? ==> a.payload == Server.Booking(date, slotIndex, TimeToStr(slots[slotIndex].start), chair, name, email))
  {
  }

  /** The page's checks are those of the browser-only page: both refuse the same forms with the same
      notice. */
  lemma ClientRefusesAsLocal(slots: seq<Slot>, s: Store, date: string, slotIndex: int, chair: string, rawName: string, rawEmail: string)
    ensures var a := ClientConfirm(slots, date, slotIndex, chair, rawName, rawEmail);
      var (n, _) := ConfirmBooking(slots, s, date, slotIndex, chair, rawName, rawEmail);
      && (a.Refused? <==> n in {EmptyName, EmptyEmail, InvalidEmail})
      && (a.Refused? ==> a.notice == n)
  {
    ConfirmOutcome(slots, s, date, slotIndex, chair, rawName, rawEmail);
  }

  /** The `time_slot` of a sent booking reads back as the start of the slot its `slot_index` names, so
      every request the page builds is self-consistent (the server itself never compares the two). */
  lemma PayloadTimeMatchesSlot(slots: seq<Slot>, date: string, slotIndex: int, chair: string, rawName: string, rawEmail: string)
    requires forall i :: 0 <= i < |slots| ==> 0 <= slots[i].start.h <= 99 && 0 <= slots[i].start.m <= 99
    requires ClientConfirm(slots, date, slotIndex, chair, rawName, rawEmail).Send?
    ensures var b := ClientConfirm(slots, date, slotIndex, chair, rawName, rawEmail).payload;
      0 <= b.slot < |slots| && ParseTime(b.time) == Some(slots[b.slot].start)
  {
    TimeRoundTrip(slots[slotIndex].start);
  }

  /** A booking the page sends for a day it lets the user pick, a slot of a grid no longer than the
      server's eight, a listed chair and an address the server's syntax check accepts passes every
      server check up to availability — provided the server's date is not later than the browser's.
      The page picks days against the browser's local date, the server checks against its own
      configured time zone; `ClockSkewRejects` shows the proviso is needed. */
  lemma ClientPayloadPassesServer(slots: seq<Slot>, d: Calendar.Date, slotIndex: int, chair: string,
                                  rawName: string, rawEmail: string, clientToday: Calendar.Date, ctx: Server.Ctx)
    requires ValidDate(d) && 1000 <= d.year <= 9999 && Selectable(d, clientToday)
    requires !IsPast(clientToday, ctx.today)
    requires |slots| <= 8 && ValidateChair(chair) && ctx.syntaxOk(JsTrim(rawEmail))
    requires ClientConfirm(slots, JsDateToStr(d), slotIndex, chair, rawName, rawEmail).Send?
    ensures Server.PostRejection(ClientConfirm(slots, JsDateToStr(d), slotIndex, chair, rawName, rawEmail).payload, ctx).None?
  {
    var date := JsDateToStr(d);
    ClientConfirmOutcome(slots, date, slotIndex, chair, rawName, rawEmail);
    var b := ClientConfirm(slots, date, slotIndex, chair, rawName, rawEmail).payload;
    assert b.date == date && b.slot == slotIndex && b.chair == chair && b.email == JsTrim(rawEmail);
    assert 0 <= b.slot < |slots|;
    JsDateIsIso(d);
    IsoRoundTrip(d);
    assert ParseIsoDate(b.date) == Some(d);
    FridayAgreement(d);
    assert ServerIsFriday(d) && !IsPast(d, ctx.today);
    ClientEmailPassesServer(b.email, ctx.syntaxOk);
    assert ValidateSlotIndex(b.slot) && ValidateChair(b.chair) && ValidateEmail(b.email, ctx.syntaxOk);
  }

  /** With the browser still on a Friday that the server's time zone has already left, the page offers a
      day the server rejects as past. */
  lemma ClockSkewRejects()
    ensures var friday, saturday := Calendar.Date(2025, 1, 10), Calendar.Date(2025, 1, 11);
      Selectable(friday, friday) && IsPast(friday, saturday)
  {
    var friday, saturday := Calendar.Date(2025, 1, 10), Calendar.Date(2025, 1, 11);
    Anchors();
    NextDayCount(friday);
    assert NextDay(friday) == saturday;
  }
}
