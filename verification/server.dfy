/** The bookings endpoint `api/bookings.php`: a dispatcher on the HTTP verb and four handlers over the
    `bookings` table. The table is a sequence of rows plus the next auto-increment id. Each handler is a
    total function from the table, the request and the environment to a response and the new table;
    execution is sequential (one request at a time). */
module Server {
  import opened Wrappers
  import opened Text
  import opened Seqs
  import opened Ordering
  import opened Calendar
  import opened Validation

  /** One row of `bookings`. `createdBy` is the session's user id at insertion, or SQL NULL. */
  datatype Row = Row(
    id: int,
    bookingDate: string,
    slotIndex: int,
    timeSlot: string,
    chair: string,
    patientName: string,
    patientEmail: string,
    createdBy: Option<int>)

  datatype Table = Table(rows: seq<Row>, nextId: int)

  /** The decoded JSON body: a syntax error, or the object's members in PHP's string view
      (a body that decodes to something other than an object has no members). */
  datatype Body = Malformed | Fields(data: map<string, string>)

  datatype Request = Request(verb: string, query: map<string, string>, body: Body)

  /** What the handlers read besides the table and the request: the session, today's date, and the
      PHP and database behaviour this model leaves abstract — the `FILTER_VALIDATE_EMAIL` syntax
      verdict, `strip_tags`, the `(int)` cast, and the database's conversion of an `id` parameter
      when it is compared with the integer column. */
  datatype Ctx = Ctx(
    session: Session,
    today: Date,
    syntaxOk: string -> bool,
    stripTags: string -> string,
    toInt: string -> int,
    sqlId: string -> int)

  datatype Reason =
    | InvalidJson
    | Missing(names: seq<string>)
    | InvalidDate
    | NotFriday
    | PastDate
    | InvalidSlot
    | InvalidChair
    | InvalidEmail
    | SlotTaken
    | Unauthorized
    | NotFound
    | NeedIdOrEmail
    | MethodNotAllowed

  /** A row as the GET query selects it: every column except `created_by`. The query also selects
      `created_at`, which the database fills in from its clock; that column is not modelled. */
  datatype Listed = Listed(
    id: int,
    bookingDate: string,
    slotIndex: int,
    timeSlot: string,
    chair: string,
    patientName: string,
    patientEmail: string)

  datatype Payload =
    | Rows(rows: seq<Listed>)
    | Created(id: int)
    | Deleted(count: nat)
    | Done
    | Failure(reason: Reason)
    | NoBody

  datatype Response = Response(status: int, payload: Payload)

  /** PHP truthiness of a string: everything except "" and "0". */
  predicate PhpTruthy(s: string) {
    s != "" && s != "0"
  }

  /** `$_GET[name] ?? null` followed by `if ($value)`. */
  function QueryParam(q: map<string, string>, name: string): (v: Option<string>)
    ensures v.Some? <==> name in q && q[name] != "" && q[name] != "0"
    ensures v.Some? ==> v.value == q[name]
  {
    if name in q && PhpTruthy(q[name]) then Some(q[name]) else None
  }

  /** The `ORDER BY booking_date, slot_index, chair` key; also the key the table keeps unique. */
  function RowKey(r: Row): SortKey {
    SortKey(r.bookingDate, r.slotIndex, r.chair)
  }

  /** The columns of a row that GET sends. */
  function Listing(r: Row): Listed {
    Listed(r.id, r.bookingDate, r.slotIndex, r.timeSlot, r.chair, r.patientName, r.patientEmail)
  }

  function Listings(rows: seq<Row>): (r: seq<Listed>)
    ensures |r| == |rows| && forall i :: 0 <= i < |rows| ==> r[i] == Listing(rows[i])
  {
    seq(|rows|, i requires 0 <= i < |rows| => Listing(rows[i]))
  }

  /** A listed row is the listing of some row, and no other. */
  lemma ListedIn(rows: seq<Row>, x: Listed)
    ensures x in Listings(rows) <==> exists i :: 0 <= i < |rows| && Listing(rows[i]) == x
  {
    var l := Listings(rows);
    if x in l {
      var i :| 0 <= i < |l| && l[i] == x;
      assert Listing(rows[i]) == x;
    }
  }

  /** The sort key of a listed row; the listing keeps the row's key. */
  function ListedKey(x: Listed): (k: SortKey)
    ensures forall r: Row :: Listing(r) == x ==> k == RowKey(r)
  {
    SortKey(x.bookingDate, x.slotIndex, x.chair)
  }

  // ---------------------------------------------------------------------------
  // GET
  // ---------------------------------------------------------------------------

  /** The rows the GET query selects, in its `ORDER BY` order. */
  function Selection(rows: seq<Row>, date: Option<string>, email: Option<string>, id: Option<string>, sqlId: string -> int)
    : seq<Row>
  {
    SortBy(Filter(rows, r => RowMatches(r, date, email, id, sqlId)), RowKey)
  }

  /** The `WHERE` clause of the GET query: every supplied filter must match. */
  predicate RowMatches(r: Row, date: Option<string>, email: Option<string>, id: Option<string>, sqlId: string -> int) {
    (date.None? || r.bookingDate == date.value)
    && (email.None? || r.patientEmail == email.value)
    && (id.None? || r.id == sqlId(id.value))
  }

  function HandleGet(t: Table, q: map<string, string>, ctx: Ctx): Response {
    var date := QueryParam(q, "date");
    var email := QueryParam(q, "email");
    var id := QueryParam(q, "id");
    if date.Some? && !ValidateDate(date.value) then Response(400, Failure(InvalidDate))
    else Response(200, Rows(Listings(Selection(t.rows, date, email, id, ctx.sqlId))))
  }

  /** GET answers 400 exactly when a date filter is given and is not a canonical date; otherwise it
      selects every matching row as often as it occurs in the table, nothing else, in key order, and
      sends the listed columns of each. */
  lemma GetMeaning(t: Table, q: map<string, string>, ctx: Ctx)
    ensures var r := HandleGet(t, q, ctx);
      var date, email, id := QueryParam(q, "date"), QueryParam(q, "email"), QueryParam(q, "id");
      var sel := Selection(t.rows, date, email, id, ctx.sqlId);
      && (r.status == 400 <==> date.Some? && ParseIsoDate(date.value).None?)
      && (r.status != 400 ==> r.status == 200 && r.payload.Rows?)
      && (r.payload.Rows? ==>
            && r.payload.rows == Listings(sel)
            && SortedBy(r.payload.rows, ListedKey)
            && SortedBy(sel, RowKey)
            && (forall x :: x in sel <==> x in t.rows && RowMatches(x, date, email, id, ctx.sqlId))
            && (forall x :: RowMatches(x, date, email, id, ctx.sqlId) ==> multiset(sel)[x] == multiset(t.rows)[x]))
  {
    var date, email, id := QueryParam(q, "date"), QueryParam(q, "email"), QueryParam(q, "id");
    var matches := r => RowMatches(r, date, email, id, ctx.sqlId);
    var sel := Selection(t.rows, date, email, id, ctx.sqlId);
    assert sel == SortBy(Filter(t.rows, matches), RowKey);
    SortedSelection(t.rows, matches);
    ListingKeepsOrder(sel);
  }

  /** Listing sorted rows gives listed rows sorted by the same key. */
  lemma ListingKeepsOrder(rows: seq<Row>)
    requires SortedBy(rows, RowKey)
    ensures SortedBy(Listings(rows), ListedKey)
  {
    var l := Listings(rows);
    forall i, j | 0 <= i < j < |l| ensures KeyLe(ListedKey(l[i]), ListedKey(l[j])) {
      assert ListedKey(l[i]) == RowKey(rows[i]) && ListedKey(l[j]) == RowKey(rows[j]);
    }
  }

  /** Sorting a filtered sequence keeps exactly the matching elements with their multiplicities. */
  lemma SortedSelection(rows: seq<Row>, matches: Row -> bool)
    ensures var sorted := SortBy(Filter(rows, matches), RowKey);
      && SortedBy(sorted, RowKey)
      && (forall x :: x in sorted <==> x in rows && matches(x))
      && (forall x :: matches(x) ==> multiset(sorted)[x] == multiset(rows)[x])
  {
    var picked := Filter(rows, matches);
    var sorted := SortBy(picked, RowKey);
    FilterMultiset(rows, matches);
    forall x
      ensures x in sorted <==> x in picked
    {
      assert x in sorted <==> x in multiset(sorted);
      assert x in picked <==> x in multiset(picked);
    }
  }

  // ---------------------------------------------------------------------------
  // POST
  // ---------------------------------------------------------------------------

  const PostParams: seq<string> := ["booking_date", "slot_index", "time_slot", "chair", "patient_name", "patient_email"]

  /** The values POST works with once every parameter is present: all sanitised except the slot index,
      which is the `(int)` cast of the raw value. */
  datatype Booking = Booking(date: string, slot: int, time: string, chair: string, name: string, email: string)

  lemma PostParamsPresent(data: map<string, string>)
    requires ParamsPresent(data, PostParams)
    ensures "booking_date" in data && "slot_index" in data && "time_slot" in data
    ensures "chair" in data && "patient_name" in data && "patient_email" in data
  {
    var ps := PostParams;
    assert ps[0] in ps && ps[1] in ps && ps[2] in ps && ps[3] in ps && ps[4] in ps && ps[5] in ps;
  }

  function PostInput(data: map<string, string>, ctx: Ctx): Booking
    requires ParamsPresent(data, PostParams)
  {
    PostParamsPresent(data);
    Booking(
      Sanitize(data["booking_date"], ctx.stripTags),
      ctx.toInt(data["slot_index"]),
      Sanitize(data["time_slot"], ctx.stripTags),
      Sanitize(data["chair"], ctx.stripTags),
      Sanitize(data["patient_name"], ctx.stripTags),
      Sanitize(data["patient_email"], ctx.stripTags))
  }

  /** The availability query: some row already holds this date, slot and chair. */
  predicate Taken(rows: seq<Row>, date: string, slot: int, chair: string) {
    exists i :: 0 <= i < |rows| && rows[i].bookingDate == date && rows[i].slotIndex == slot && rows[i].chair == chair
  }

  /** The validation cascade of POST, in the order the handler runs it; `None` when all checks pass. */
  function PostRejection(b: Booking, ctx: Ctx): Option<Reason> {
    var parsed := ParseIsoDate(b.date);
    if parsed.None? then Some(InvalidDate)
    else if !ServerIsFriday(parsed.value) then Some(NotFriday)
    else if IsPast(parsed.value, ctx.today) then Some(PastDate)
    else if !ValidateSlotIndex(b.slot) then Some(InvalidSlot)
    else if !ValidateChair(b.chair) then Some(InvalidChair)
    else if !ValidateEmail(b.email, ctx.syntaxOk) then Some(InvalidEmail)
    else None
  }

  /** POST once its parameters are read: the validation cascade, the availability check, the insert. */
  function Admit(t: Table, b: Booking, ctx: Ctx): (Response, Table) {
    var rejection := PostRejection(b, ctx);
    if rejection.Some? then (Response(400, Failure(rejection.value)), t)
    else if Taken(t.rows, b.date, b.slot, b.chair) then (Response(409, Failure(SlotTaken)), t)
    else
      var row := Row(t.nextId, b.date, b.slot, b.time, b.chair, b.name, b.email, ctx.session.userId);
      (Response(201, Created(t.nextId)), Table(t.rows + [row], t.nextId + 1))
  }

  function HandlePost(t: Table, body: Body, ctx: Ctx): (Response, Table) {
    match body
    case Malformed => (Response(400, Failure(InvalidJson)), t)
    case Fields(data) =>
      if !ParamsPresent(data, PostParams) then (Response(400, Failure(Missing(MissingParams(data, PostParams)))), t)
      else Admit(t, PostInput(data, ctx), ctx)
  }

  /** The order of POST's checks: each rejection reason implies that every earlier check passed, and a
      booking is stored exactly when all of them pass and the slot is free. */
  lemma PostCheckOrder(b: Booking, ctx: Ctx)
    requires ValidDate(ctx.today)
    ensures var r := PostRejection(b, ctx);
      var d := ParseIsoDate(b.date);
      && (r == Some(InvalidDate) <==> d.None?)
      && (r == Some(NotFriday) <==> d.Some? && IsoWeekday(d.value) != 5)
      && (r == Some(PastDate) <==> d.Some? && IsoWeekday(d.value) == 5 && Earlier(d.value, ctx.today))
      && (r == Some(InvalidSlot) <==> d.Some? && IsoWeekday(d.value) == 5 && !Earlier(d.value, ctx.today) && !(0 <= b.slot <= 7))
      && (r == Some(InvalidChair) <==> d.Some? && IsoWeekday(d.value) == 5 && !Earlier(d.value, ctx.today) && 0 <= b.slot <= 7
                                        && b.chair !in Chairs)
      && (r == Some(InvalidEmail) <==> d.Some? && IsoWeekday(d.value) == 5 && !Earlier(d.value, ctx.today) && 0 <= b.slot <= 7
                                        && b.chair in Chairs && !ValidateEmail(b.email, ctx.syntaxOk))
      && (r == None <==> d.Some? && IsoWeekday(d.value) == 5 && !Earlier(d.value, ctx.today) && 0 <= b.slot <= 7
                          && b.chair in Chairs && ValidateEmail(b.email, ctx.syntaxOk))
  {
    var d := ParseIsoDate(b.date);
    if d.Some? {
      PastIffEarlier(d.value, ctx.today);
    }
  }

  /** Once the parameters are read: 400 on the first failed check, 409 when the slot and chair are taken
      that day, otherwise 201 and exactly one new row at the end carrying the sanitised fields, the cast
      slot index, the session's user id and the next id. Nothing changes unless the answer is 201. */
  lemma AdmitOutcome(t: Table, b: Booking, ctx: Ctx)
    ensures var (r, t') := Admit(t, b, ctx);
      && (r.status == 400 <==> PostRejection(b, ctx).Some?)
      && (r.status == 409 <==> PostRejection(b, ctx).None? && Taken(t.rows, b.date, b.slot, b.chair))
      && (r.status == 201 <==> PostRejection(b, ctx).None? && !Taken(t.rows, b.date, b.slot, b.chair))
      && (r.status != 201 ==> t' == t)
      && (r.status == 201 ==>
            && r.payload == Created(t.nextId)
            && t' == Table(t.rows + [Row(t.nextId, b.date, b.slot, b.time, b.chair, b.name, b.email, ctx.session.userId)],
                           t.nextId + 1))
  {
  }

  /** POST answers 400, 409 or 201, and only a well-formed body with every parameter gets past the 400s. */
  lemma PostOutcome(t: Table, body: Body, ctx: Ctx)
    ensures var (r, t') := HandlePost(t, body, ctx);
      && (r.status == 400 || r.status == 409 || r.status == 201)
      && (r.status != 400 ==>
            && body.Fields? && ParamsPresent(body.data, PostParams)
            && (r, t') == Admit(t, PostInput(body.data, ctx), ctx))
      && (r.status != 201 ==> t' == t)
  {
    if body.Fields? && ParamsPresent(body.data, PostParams) {
      AdmitOutcome(t, PostInput(body.data, ctx), ctx);
    }
  }

  /** The requirement `requireParams` places on a POST body, spelled out name by name. */
  lemma PostParamsPresentIff(data: map<string, string>)
    ensures ParamsPresent(data, PostParams) <==>
      && !Blank(data, "booking_date") && !Blank(data, "slot_index") && !Blank(data, "time_slot")
      && !Blank(data, "chair") && !Blank(data, "patient_name") && !Blank(data, "patient_email")
  {
    var ps := PostParams;
    assert ps[0] == "booking_date" && ps[1] == "slot_index" && ps[2] == "time_slot";
    assert ps[3] == "chair" && ps[4] == "patient_name" && ps[5] == "patient_email";
    SixParams(data, ps);
  }

  lemma SixParams(data: map<string, string>, ps: seq<string>)
    requires |ps| == 6
    ensures ParamsPresent(data, ps) <==>
      !Blank(data, ps[0]) && !Blank(data, ps[1]) && !Blank(data, ps[2])
      && !Blank(data, ps[3]) && !Blank(data, ps[4]) && !Blank(data, ps[5])
  {
    assert ps[0] in ps && ps[1] in ps && ps[2] in ps && ps[3] in ps && ps[4] in ps && ps[5] in ps;
    forall p | p in ps
      ensures p == ps[0] || p == ps[1] || p == ps[2] || p == ps[3] || p == ps[4] || p == ps[5]
    {
      var i :| 0 <= i < |ps| && ps[i] == p;
    }
  }

  /** The stored `time_slot` plays no part in any check. */
  lemma AdmitIgnoresTime(t: Table, b: Booking, time: string, ctx: Ctx)
    ensures var (r, t1) := Admit(t, b, ctx);
      var (r', t2) := Admit(t, b.(time := time), ctx);
      && r == r'
      && |t1.rows| == |t2.rows|
      && (forall i :: 0 <= i < |t1.rows| ==> t1.rows[i] == t2.rows[i].(timeSlot := t1.rows[i].timeSlot))
  {
    assert PostRejection(b, ctx) == PostRejection(b.(time := time), ctx);
  }

  /** The server never compares `time_slot` with `slot_index`: replacing one non-blank `time_slot` by
      another changes neither the response nor anything stored except that text. */
  lemma PostIgnoresTimeSlot(t: Table, data: map<string, string>, other: string, ctx: Ctx)
    requires "time_slot" in data && PhpTrim(data["time_slot"]) != "" && PhpTrim(other) != ""
    ensures var (r, t1) := HandlePost(t, Fields(data), ctx);
      var (r', t2) := HandlePost(t, Fields(data["time_slot" := other]), ctx);
      && r == r'
      && |t1.rows| == |t2.rows|
      && (forall i :: 0 <= i < |t1.rows| ==> t1.rows[i] == t2.rows[i].(timeSlot := t1.rows[i].timeSlot))
  {
    OtherTimeSlot(data, other);
    MissingUnchanged(data, other);
    if ParamsPresent(data, PostParams) {
      PostOtherTimeSlot(t, data, other, ctx);
      AdmitIgnoresTime(t, PostInput(data, ctx), PostInput(data["time_slot" := other], ctx).time, ctx);
    }
  }

  lemma PostOtherTimeSlot(t: Table, data: map<string, string>, other: string, ctx: Ctx)
    requires ParamsPresent(data, PostParams) && ParamsPresent(data["time_slot" := other], PostParams)
    ensures var b := PostInput(data, ctx);
      var b' := PostInput(data["time_slot" := other], ctx);
      && HandlePost(t, Fields(data), ctx) == Admit(t, b, ctx)
      && HandlePost(t, Fields(data["time_slot" := other]), ctx) == Admit(t, b.(time := b'.time), ctx)
  {
    var data' := data["time_slot" := other];
    var b, b' := PostInput(data, ctx), PostInput(data', ctx);
    PostParamsPresent(data);
    assert data'["booking_date"] == data["booking_date"] && data'["slot_index"] == data["slot_index"];
    assert data'["chair"] == data["chair"];
    assert data'["patient_name"] == data["patient_name"] && data'["patient_email"] == data["patient_email"];
    assert b' == b.(time := b'.time);
  }

  /** Replacing a non-blank `time_slot` by another reports the same missing names. */
  lemma MissingUnchanged(data: map<string, string>, other: string)
    requires "time_slot" in data && PhpTrim(data["time_slot"]) != "" && PhpTrim(other) != ""
    ensures MissingParams(data["time_slot" := other], PostParams) == MissingParams(data, PostParams)
  {
    var data' := data["time_slot" := other];
    BlankIffTrimEmpty(data, "time_slot");
    BlankIffTrimEmpty(data', "time_slot");
    forall p | p in PostParams
      ensures Blank(data', p) == Blank(data, p)
    {
      if p != "time_slot" {
        BlankElsewhere(data, "time_slot", other, p);
      }
    }
    FilterCongruent(PostParams, p => Blank(data, p), p => Blank(data', p));
  }

  /** Replacing a non-blank `time_slot` by another keeps the parameter check's verdict and every other field. */
  lemma OtherTimeSlot(data: map<string, string>, other: string)
    requires "time_slot" in data && PhpTrim(data["time_slot"]) != "" && PhpTrim(other) != ""
    ensures var data' := data["time_slot" := other];
      && ParamsPresent(data', PostParams) == ParamsPresent(data, PostParams)
      && forall k :: k != "time_slot" ==> (k in data' <==> k in data) && (k in data ==> data'[k] == data[k])
  {
    var data' := data["time_slot" := other];
    var ps := PostParams;
    assert ps[0] == "booking_date" && ps[1] == "slot_index" && ps[2] == "time_slot";
    assert ps[3] == "chair" && ps[4] == "patient_name" && ps[5] == "patient_email";
    assert ps[0] != ps[2] && ps[1] != ps[2] && ps[3] != ps[2] && ps[4] != ps[2] && ps[5] != ps[2];
    BlankElsewhere(data, "time_slot", other, ps[0]);
    BlankElsewhere(data, "time_slot", other, ps[1]);
    BlankElsewhere(data, "time_slot", other, ps[3]);
    BlankElsewhere(data, "time_slot", other, ps[4]);
    BlankElsewhere(data, "time_slot", other, ps[5]);
    BlankIffTrimEmpty(data, ps[2]);
    BlankIffTrimEmpty(data', ps[2]);
    SixParams(data, ps);
    SixParams(data', ps);
  }

  lemma BlankElsewhere(data: map<string, string>, k: string, v: string, p: string)
    requires p != k
    ensures Blank(data[k := v], p) == Blank(data, p)
  {
  }

  // ---------------------------------------------------------------------------
  // PUT
  // ---------------------------------------------------------------------------

  const PutParams: seq<string> := ["id", "patient_name", "patient_email"]

  lemma PutParamsPresent(data: map<string, string>)
    requires ParamsPresent(data, PutParams)
    ensures "id" in data && "patient_name" in data && "patient_email" in data
  {
    var ps := PutParams;
    assert ps[0] in ps && ps[1] in ps && ps[2] in ps;
  }

  /** Two rows that agree on everything except the patient's name and e-mail. */
  predicate SameBooking(a: Row, b: Row) {
    a.id == b.id && a.bookingDate == b.bookingDate && a.slotIndex == b.slotIndex && a.timeSlot == b.timeSlot
    && a.chair == b.chair && a.createdBy == b.createdBy
  }

  /** The `UPDATE ... SET patient_name, patient_email WHERE id` statement. */
  function UpdateContact(rows: seq<Row>, id: int, name: string, email: string): (r: seq<Row>)
    ensures |r| == |rows|
    ensures forall i :: 0 <= i < |rows| ==> SameBooking(r[i], rows[i])
    ensures forall i :: 0 <= i < |rows| && rows[i].id != id ==> r[i] == rows[i]
    ensures forall i :: 0 <= i < |rows| && rows[i].id == id ==> r[i].patientName == name && r[i].patientEmail == email
  {
    seq(|rows|, i requires 0 <= i < |rows| =>
      if rows[i].id == id then rows[i].(patientName := name, patientEmail := email) else rows[i])
  }

  predicate HasId(rows: seq<Row>, id: int) {
    exists i :: 0 <= i < |rows| && rows[i].id == id
  }

  /** PUT once its parameters are read: the e-mail check, the existence check, the update. */
  function Amend(t: Table, id: int, name: string, email: string, ctx: Ctx): (Response, Table) {
    if !ValidateEmail(email, ctx.syntaxOk) then (Response(400, Failure(InvalidEmail)), t)
    else if !HasId(t.rows, id) then (Response(404, Failure(NotFound)), t)
    else (Response(200, Done), Table(UpdateContact(t.rows, id, name, email), t.nextId))
  }

  function HandlePut(t: Table, body: Body, ctx: Ctx): (Response, Table) {
    if !IsAuthenticated(ctx.session) then (Response(401, Failure(Unauthorized)), t)
    else
      match body
      case Malformed => (Response(400, Failure(InvalidJson)), t)
      case Fields(data) =>
        if !ParamsPresent(data, PutParams) then (Response(400, Failure(Missing(MissingParams(data, PutParams)))), t)
        else
          PutParamsPresent(data);
          Amend(t, ctx.toInt(data["id"]), Sanitize(data["patient_name"], ctx.stripTags),
                Sanitize(data["patient_email"], ctx.stripTags), ctx)
  }

  /** Once the parameters are read: 400 for an address the server refuses, 404 for an id no row has,
      otherwise 200 and a table in which only the name and e-mail of the rows with that id differ. */
  lemma AmendOutcome(t: Table, id: int, name: string, email: string, ctx: Ctx)
    ensures var (r, t') := Amend(t, id, name, email, ctx);
      && (r.status == 400 <==> !ValidateEmail(email, ctx.syntaxOk))
      && (r.status == 404 <==> ValidateEmail(email, ctx.syntaxOk) && !HasId(t.rows, id))
      && (r.status == 200 <==> ValidateEmail(email, ctx.syntaxOk) && HasId(t.rows, id))
      && (r.status != 200 ==> t' == t)
      && t'.nextId == t.nextId && |t'.rows| == |t.rows|
      && (forall i :: 0 <= i < |t.rows| ==> SameBooking(t'.rows[i], t.rows[i]))
      && (forall i :: 0 <= i < |t.rows| && t.rows[i].id != id ==> t'.rows[i] == t.rows[i])
      && (r.status == 200 ==>
            forall i :: 0 <= i < |t.rows| && t.rows[i].id == id ==>
              t'.rows[i].patientName == name && t'.rows[i].patientEmail == email)
  {
  }

  /** PUT needs a session before anything else, then a well-formed body with every parameter; past those
      it is `Amend` on the cast id and the sanitised name and e-mail. */
  lemma PutOutcome(t: Table, body: Body, ctx: Ctx)
    ensures var (r, t') := HandlePut(t, body, ctx);
      && (r.status == 401 <==> !IsAuthenticated(ctx.session))
      && (r.status == 401 || r.status == 400 || r.status == 404 || r.status == 200)
      && (r.status != 200 ==> t' == t)
      && (r.status == 200 || r.status == 404 || r.payload == Failure(InvalidEmail) ==>
            && body.Fields? && ParamsPresent(body.data, PutParams)
            && (PutParamsPresent(body.data);
                (r, t') == Amend(t, ctx.toInt(body.data["id"]), Sanitize(body.data["patient_name"], ctx.stripTags),
                                 Sanitize(body.data["patient_email"], ctx.stripTags), ctx)))
  {
    if IsAuthenticated(ctx.session) && body.Fields? && ParamsPresent(body.data, PutParams) {
      PutParamsPresent(body.data);
      AmendOutcome(t, ctx.toInt(body.data["id"]), Sanitize(body.data["patient_name"], ctx.stripTags),
                   Sanitize(body.data["patient_email"], ctx.stripTags), ctx);
    }
  }

  // ---------------------------------------------------------------------------
  // DELETE
  // ---------------------------------------------------------------------------

  /** `DELETE FROM bookings WHERE ...` with the rows to keep described by `keep`: 404 when no row went,
      otherwise 200 with `success` built from the number removed. */
  function Purge(t: Table, keep: Row -> bool, success: nat -> Payload): (Response, Table) {
    var kept := Filter(t.rows, keep);
    var affected := |t.rows| - |kept|;
    if affected == 0 then (Response(404, Failure(NotFound)), Table(kept, t.nextId))
    else (Response(200, success(affected)), Table(kept, t.nextId))
  }

  function HandleDelete(t: Table, q: map<string, string>, ctx: Ctx): (Response, Table) {
    var id := QueryParam(q, "id");
    var email := QueryParam(q, "email");
    if id.Some? then
      if !IsAuthenticated(ctx.session) then (Response(401, Failure(Unauthorized)), t)
      else Purge(t, (r: Row) => r.id != ctx.sqlId(id.value), _ => Done)
    else if email.Some? then
      if !ValidateEmail(email.value, ctx.syntaxOk) then (Response(400, Failure(InvalidEmail)), t)
      else Purge(t, (r: Row) => r.patientEmail != email.value, (n: nat) => Deleted(n))
    else (Response(400, Failure(NeedIdOrEmail)), t)
  }

  /** A conditional delete keeps exactly the rows the condition spares, with their multiplicities and in
      their order; it answers 404 exactly when it spared every row, and then the table is as before;
      otherwise the count it reports is the number of rows removed. */
  lemma PurgeOutcome(t: Table, keep: Row -> bool, success: nat -> Payload)
    ensures var (r, t') := Purge(t, keep, success);
      && t'.nextId == t.nextId
      && (forall x :: multiset(t'.rows)[x] == if keep(x) then multiset(t.rows)[x] else 0)
      && IsSubsequence(t'.rows, t.rows)
      && (r.status == 404 <==> forall i :: 0 <= i < |t.rows| ==> keep(t.rows[i]))
      && (r.status == 404 ==> t' == t && r.payload == Failure(NotFound))
      && (r.status != 404 ==> r == Response(200, success(|t.rows| - |t'.rows|)) && |t'.rows| < |t.rows|)
  {
    FilterMultiset(t.rows, keep);
    PurgeResponse(t, keep, success);
  }

  lemma PurgeResponse(t: Table, keep: Row -> bool, success: nat -> Payload)
    ensures var (r, t') := Purge(t, keep, success);
      && t' == Table(Filter(t.rows, keep), t.nextId)
      && (r.status == 404 <==> forall i :: 0 <= i < |t.rows| ==> keep(t.rows[i]))
      && (r.status == 404 ==> t' == t && r.payload == Failure(NotFound))
      && (r.status != 404 ==> r == Response(200, success(|t.rows| - |t'.rows|)) && |t'.rows| < |t.rows|)
  {
    if forall i :: 0 <= i < |t.rows| ==> keep(t.rows[i]) {
      FilterKeepsAll(t.rows, keep);
    } else {
      var j :| 0 <= j < |t.rows| && !keep(t.rows[j]);
      FilterDropsSome(t.rows, keep, j);
    }
  }

  /** DELETE: a truthy `id` takes precedence and needs a session; otherwise a truthy `email` needs an
      address the server accepts but no session; with neither it is a 400. Past those checks it deletes
      by id, or deletes every booking of that e-mail and reports the count. */
  lemma DeleteOutcome(t: Table, q: map<string, string>, ctx: Ctx)
    ensures var (r, t') := HandleDelete(t, q, ctx);
      var id, email := QueryParam(q, "id"), QueryParam(q, "email");
      && (r.status == 401 <==> id.Some? && !IsAuthenticated(ctx.session))
      && (r.payload == Failure(NeedIdOrEmail) <==> id.None? && email.None?)
      && (r.payload == Failure(InvalidEmail) <==> id.None? && email.Some? && !ValidateEmail(email.value, ctx.syntaxOk))
      && (r.status == 401 || r.status == 400 ==> t' == t)
      && (id.Some? && IsAuthenticated(ctx.session) ==>
            (r, t') == Purge(t, (r: Row) => r.id != ctx.sqlId(id.value), _ => Done))
      && (id.None? && email.Some? && ValidateEmail(email.value, ctx.syntaxOk) ==>
            (r, t') == Purge(t, (r: Row) => r.patientEmail != email.value, (n: nat) => Deleted(n)))
  {
  }

  // ---------------------------------------------------------------------------
  // Dispatch
  // ---------------------------------------------------------------------------

  /** The preflight answer of the shared configuration comes first: an `OPTIONS` request gets an empty 200
      before the endpoint's own switch runs. */
  function Dispatch(t: Table, req: Request, ctx: Ctx): (Response, Table) {
    if req.verb == "OPTIONS" then (Response(200, NoBody), t)
    else if req.verb == "GET" then (HandleGet(t, req.query, ctx), t)
    else if req.verb == "POST" then HandlePost(t, req.body, ctx)
    else if req.verb == "PUT" then HandlePut(t, req.body, ctx)
    else if req.verb == "DELETE" then HandleDelete(t, req.query, ctx)
    else (Response(405, Failure(MethodNotAllowed)), t)
  }

  /** A preflight is an empty 200; only the four verbs reach a handler; any other verb is a 405. A preflight,
      a 405 and a GET leave the table alone, and only a preflight has an empty body. */
  lemma DispatchVerbs(t: Table, req: Request, ctx: Ctx)
    ensures var (r, t') := Dispatch(t, req, ctx);
      && (req.verb == "OPTIONS" ==> r == Response(200, NoBody))
      && (r.payload == NoBody <==> req.verb == "OPTIONS")
      && (r.status == 405 <==> req.verb !in {"OPTIONS", "GET", "POST", "PUT", "DELETE"})
      && (r.status == 405 || req.verb == "GET" || req.verb == "OPTIONS" ==> t' == t)
  {
    if req.verb == "POST" {
      PostOutcome(t, req.body, ctx);
    } else if req.verb == "PUT" {
      PutOutcome(t, req.body, ctx);
    } else if req.verb == "DELETE" {
      DeleteStatuses(t, req.query, ctx);
    }
  }

  lemma DeleteStatuses(t: Table, q: map<string, string>, ctx: Ctx)
    ensures var r := HandleDelete(t, q, ctx).0;
      r.status == 200 || r.status == 400 || r.status == 401 || r.status == 404
  {
    var id, email := QueryParam(q, "id"), QueryParam(q, "email");
    if id.Some? && IsAuthenticated(ctx.session) {
      PurgeOutcome(t, (r: Row) => r.id != ctx.sqlId(id.value), _ => Done);
    } else if id.None? && email.Some? && ValidateEmail(email.value, ctx.syntaxOk) {
      PurgeOutcome(t, (r: Row) => r.patientEmail != email.value, (n: nat) => Deleted(n));
    }
  }

  // ---------------------------------------------------------------------------
  // The table invariant
  // ---------------------------------------------------------------------------

  /** Every stored row passed the booking rules that do not depend on the day of the request. */
  predicate RowValid(r: Row, syntaxOk: string -> bool) {
    && ParseIsoDate(r.bookingDate).Some?
    && ServerIsFriday(ParseIsoDate(r.bookingDate).value)
    && ValidateSlotIndex(r.slotIndex)
    && ValidateChair(r.chair)
    && ValidateEmail(r.patientEmail, syntaxOk)
  }

  /** Two distinct rows: different ids and different (date, slot, chair). */
  predicate Apart(a: Row, b: Row) {
    a.id != b.id && RowKey(a) != RowKey(b)
  }

  ghost predicate Consistent(t: Table, syntaxOk: string -> bool) {
    && (forall i :: 0 <= i < |t.rows| ==> RowValid(t.rows[i], syntaxOk) && t.rows[i].id < t.nextId)
    && (forall i, j :: 0 <= i < j < |t.rows| ==> Apart(t.rows[i], t.rows[j]))
  }

  lemma AdmitKeepsConsistent(t: Table, b: Booking, ctx: Ctx)
    requires Consistent(t, ctx.syntaxOk)
    ensures Consistent(Admit(t, b, ctx).1, ctx.syntaxOk)
  {
    AdmitOutcome(t, b, ctx);
    var (r, t') := Admit(t, b, ctx);
    if r.status == 201 {
      var n := |t.rows|;
      assert RowValid(t'.rows[n], ctx.syntaxOk);
      forall i, j | 0 <= i < j < |t'.rows|
        ensures Apart(t'.rows[i], t'.rows[j])
      {
        assert t'.rows[i] == t.rows[i];
        if j < n {
          assert t'.rows[j] == t.rows[j];
        }
      }
    }
  }

  lemma PostKeepsConsistent(t: Table, body: Body, ctx: Ctx)
    requires Consistent(t, ctx.syntaxOk)
    ensures Consistent(HandlePost(t, body, ctx).1, ctx.syntaxOk)
  {
    if body.Fields? && ParamsPresent(body.data, PostParams) {
      AdmitKeepsConsistent(t, PostInput(body.data, ctx), ctx);
    }
  }

  lemma AmendKeepsConsistent(t: Table, id: int, name: string, email: string, ctx: Ctx)
    requires Consistent(t, ctx.syntaxOk)
    ensures Consistent(Amend(t, id, name, email, ctx).1, ctx.syntaxOk)
  {
    AmendOutcome(t, id, name, email, ctx);
    var t' := Amend(t, id, name, email, ctx).1;
    forall i, j | 0 <= i < j < |t'.rows|
      ensures Apart(t'.rows[i], t'.rows[j])
    {
      assert Apart(t.rows[i], t.rows[j]);
    }
  }

  lemma PutKeepsConsistent(t: Table, body: Body, ctx: Ctx)
    requires Consistent(t, ctx.syntaxOk)
    ensures Consistent(HandlePut(t, body, ctx).1, ctx.syntaxOk)
  {
    if IsAuthenticated(ctx.session) && body.Fields? && ParamsPresent(body.data, PutParams) {
      PutParamsPresent(body.data);
      AmendKeepsConsistent(t, ctx.toInt(body.data["id"]), Sanitize(body.data["patient_name"], ctx.stripTags),
                           Sanitize(body.data["patient_email"], ctx.stripTags), ctx);
    }
  }

  lemma PurgeKeepsConsistent(t: Table, keep: Row -> bool, success: nat -> Payload, syntaxOk: string -> bool)
    requires Consistent(t, syntaxOk)
    ensures Consistent(Purge(t, keep, success).1, syntaxOk)
  {
    var kept := Filter(t.rows, keep);
    FilterPreservesPairwise(t.rows, keep, Apart);
    forall i | 0 <= i < |kept|
      ensures RowValid(kept[i], syntaxOk) && kept[i].id < t.nextId
    {
      assert kept[i] in kept;
      var j :| 0 <= j < |t.rows| && t.rows[j] == kept[i];
    }
  }

  lemma DeleteKeepsConsistent(t: Table, q: map<string, string>, ctx: Ctx)
    requires Consistent(t, ctx.syntaxOk)
    ensures Consistent(HandleDelete(t, q, ctx).1, ctx.syntaxOk)
  {
    var id, email := QueryParam(q, "id"), QueryParam(q, "email");
    if id.Some? {
      PurgeKeepsConsistent(t, (r: Row) => r.id != ctx.sqlId(id.value), _ => Done, ctx.syntaxOk);
    } else if email.Some? {
      PurgeKeepsConsistent(t, (r: Row) => r.patientEmail != email.value, (n: nat) => Deleted(n), ctx.syntaxOk);
    }
  }

  /** Under sequential execution every request keeps the table consistent: no two rows share an id or a
      (date, slot, chair), every row is a valid Friday booking, and the next id is fresh. */
  lemma {:induction false} DispatchKeepsConsistent(t: Table, req: Request, ctx: Ctx)
    requires Consistent(t, ctx.syntaxOk)
    ensures Consistent(Dispatch(t, req, ctx).1, ctx.syntaxOk)
  {
    if req.verb == "POST" {
      PostKeepsConsistent(t, req.body, ctx);
    } else if req.verb == "PUT" {
      PutKeepsConsistent(t, req.body, ctx);
    } else if req.verb == "DELETE" {
      DeleteKeepsConsistent(t, req.query, ctx);
    }
  }

  /** A GET by an id that only the last row carries returns that row alone. */
  lemma GetByIdAfterAppend(rows: seq<Row>, row: Row, nextId: int, q: map<string, string>, ctx: Ctx)
    requires "id" in q && PhpTruthy(q["id"]) && "date" !in q && "email" !in q
    requires row.id == ctx.sqlId(q["id"])
    requires forall i :: 0 <= i < |rows| ==> rows[i].id != row.id
    ensures HandleGet(Table(rows + [row], nextId), q, ctx) == Response(200, Rows([Listing(row)]))
  {
    var matches := (r: Row) => RowMatches(r, None, None, Some(q["id"]), ctx.sqlId);
    assert QueryParam(q, "date") == None && QueryParam(q, "email") == None;
    assert QueryParam(q, "id") == Some(q["id"]);
    FilterAppend(rows, [row], matches);
    FilterKeepsNone(rows, matches);
    assert Filter([row], matches) == [row];
    var sorted := SortBy([row], RowKey);
    assert multiset(sorted) == multiset{row};
    assert sorted[0] in multiset(sorted);
    assert Selection(rows + [row], None, None, Some(q["id"]), ctx.sqlId) == sorted == [row];
    assert Listings([row]) == [Listing(row)];
  }

  /** A booking just created is what a GET by its id returns, alone: the inserted row's listed columns. */
  lemma PostThenGetById(t: Table, body: Body, ctx: Ctx, q: map<string, string>)
    requires Consistent(t, ctx.syntaxOk)
    requires HandlePost(t, body, ctx).0.status == 201
    requires "id" in q && PhpTruthy(q["id"]) && ctx.sqlId(q["id"]) == t.nextId
    requires "date" !in q && "email" !in q
    ensures var t' := HandlePost(t, body, ctx).1;
      |t'.rows| == |t.rows| + 1 && HandleGet(t', q, ctx) == Response(200, Rows([Listing(t'.rows[|t.rows|])]))
  {
    PostOutcome(t, body, ctx);
    var b := PostInput(body.data, ctx);
    AdmitOutcome(t, b, ctx);
    var row := Row(t.nextId, b.date, b.slot, b.time, b.chair, b.name, b.email, ctx.session.userId);
    var t' := HandlePost(t, body, ctx).1;
    assert t' == Table(t.rows + [row], t.nextId + 1);
    GetByIdAfterAppend(t.rows, row, t.nextId + 1, q, ctx);
    assert t'.rows[|t.rows|] == row;
  }
}
