/**
 * The jQuery page's reservation client. It covers:
 *   - the JSON payload built from the form on submit;
 *   - the message board's pagination cursor and the enabled state of its
 *     prev and next buttons across requests and responses;
 *   - the life cycle of a submission.
 * The transport is left out. A request is a `Query` value and its answer is a
 * `Response` value. Any response may be applied to any board, because the page
 * does not tie a response to the request that caused it.
 */
module Rsvp {
  import opened Wrappers
  import Attendance

  /* ---------------- The payload ---------------- */

  /** The body of `POST /api/attendance`. */
  datatype Payload = Payload(name: string, attendance: string, totalGuests: int, message: string)

  /**
   * The payload built on submit, as written. `field` is the hidden attendance
   * input. `guests` is what `parseInt` made of the guest field: `None` for NaN.
   * An empty field is sent as "no", yet its guest count is still computed as
   * `parseInt(guests) || 1`, because the count tests the raw field.
   */
  function BuildPayload(name: string, field: string, guests: Option<int>, message: string): (p: Payload)
    ensures p.name == name && p.message == message
    ensures p.attendance == "no" <==> field == "" || field == "no"
    ensures p.attendance != "no" ==> p.attendance == field
    ensures p.totalGuests == 0 <==> field == "no"
    ensures field != "no" && guests.Some? && guests.value != 0 ==> p.totalGuests == guests.value
    ensures field != "no" && (guests.None? || guests.value == 0) ==> p.totalGuests == 1
  {
    var attendance := if field == "" then "no" else field;
    var total := if field == "no" then 0 else match guests
      case Some(n) => if n != 0 then n else 1
      case None => 1;
    Payload(name, attendance, total, message)
  }

  /**
   * With no attendance chosen, the payload declines yet reports at least one
   * guest: a submission saying "no" with a non-zero guest count.
   */
  lemma EmptyChoiceCountsGuests(name: string, guests: Option<int>, message: string)
    ensures var p := BuildPayload(name, "", guests, message);
      p.attendance == "no" && p.totalGuests != 0
  {
  }

  /**
   * The payload as evidently intended: the guest count follows the attendance
   * actually sent, so a declining payload always carries 0 guests.
   */
  function BuildPayloadFixed(name: string, field: string, guests: Option<int>, message: string): (p: Payload)
    ensures p.name == name && p.message == message
    ensures p.attendance == (if field == "" then "no" else field)
    ensures p.totalGuests == 0 <==> p.attendance == "no"
  {
    var attendance := if field == "" then "no" else field;
    var total := if attendance == "no" then 0 else match guests
      case Some(n) => if n != 0 then n else 1
      case None => 1;
    Payload(name, attendance, total, message)
  }

  /** The two agree on every input except an empty attendance field. */
  lemma FixedAgreesWhenChosen(name: string, field: string, guests: Option<int>, message: string)
    ensures BuildPayloadFixed(name, field, guests, message) == BuildPayload(name, field, guests, message) <==> field != ""
  {
    if field == "" {
      assert BuildPayloadFixed(name, field, guests, message).totalGuests == 0;
      assert BuildPayload(name, field, guests, message).totalGuests != 0;
    }
  }

  /* ---------------- Pagination ---------------- */

  /** `limit` of every message query. */
  const Limit: nat := 5

  const LoadFailedText: string := "Failed to get the messages."
  const ThankYouText: string := "Thank you for your response!"
  const SubmitFailedText: string := "Failed to submit form."

  /** A toast shown to the guest. */
  datatype Notice = Success(text: string) | Error(text: string)

  /** `currentPagination`, as the server sends it. */
  datatype Cursor = Cursor(page: int, totalPages: int, hasPrev: bool, hasNext: bool)

  /** `{ page: 1, totalPages: 1 }`, the cursor before any response: both flags absent, so false. */
  const FirstCursor: Cursor := Cursor(1, 1, false, false)

  /** A cursor as the server describes a page that exists: the flags say whether there is a neighbour. */
  predicate ServerCursor(c: Cursor)
  {
    1 <= c.page <= c.totalPages && (c.hasPrev <==> c.page > 1) && (c.hasNext <==> c.page < c.totalPages)
  }

  /**
   * `updatedAt` as `formatTimestamp` receives it: absent, or a text. Whether
   * the browser's date parser makes a valid date of the text is recorded in
   * `parses`, since the parser itself is not modelled.
   */
  datatype Timestamp = Absent | Text(text: string, parses: bool)

  datatype Entry = Entry(name: string, message: string, updatedAt: Timestamp)

  /**
   * `formatTimestamp` returns for this entry. For an absent timestamp
   * `.replace` throws a `TypeError`, and for an invalid date the formatter
   * throws a `RangeError`.
   */
  predicate Formattable(e: Entry)
  {
    e.updatedAt.Text? && e.updatedAt.parses
  }

  /** The `done` handler runs to its end: a non-empty page whose every entry can be formatted. */
  predicate Renders(res: Response)
  {
    res.Fetched? && |res.data| > 0 && forall i :: 0 <= i < |res.data| ==> Formattable(res.data[i])
  }

  /** The message section: the cursor, the listed entries and the two buttons. */
  datatype Board = Board(cursor: Cursor, entries: seq<Entry>, prevDisabled: bool, nextDisabled: bool)

  /** `GET /api/attendance?page=&limit=`, and whether the section scrolls into view once it succeeds. */
  datatype Query = Query(page: int, limit: nat, thenFocus: bool)

  /** What the server answers: a page of entries with its cursor, or a failure. */
  datatype Response = Fetched(data: seq<Entry>, pagination: Cursor) | Failed

  /** What handling a response does: the new board, the toast if any, and whether the section is focused. */
  datatype Outcome = Outcome(board: Board, notice: Option<Notice>, focus: bool)

  /** `loadMessages(page, cb)` up to the request: both buttons are disabled while it is in flight. */
  function Request(b: Board, page: int, thenFocus: bool): (r: (Board, Query))
    ensures r.0.prevDisabled && r.0.nextDisabled
    ensures r.0.cursor == b.cursor && r.0.entries == b.entries
    ensures r.1.page == page && r.1.limit == Limit && r.1.thenFocus == thenFocus
  {
    (b.(prevDisabled := true, nextDisabled := true), Query(page, Limit, thenFocus))
  }

  /**
   * The `done` and `fail` handlers of `loadMessages`. Only a success carrying
   * entries that all render changes the board. It replaces the list and the
   * cursor wholesale and sets each button from its flag. An empty page
   * changes nothing. A page with an entry `formatTimestamp` throws on stops
   * the handler while the list is built, before the list, the cursor or the
   * buttons are touched, so it changes nothing either. A failure changes
   * nothing but shows an error. In every case but the first the buttons stay
   * disabled.
   */
  function Receive(b: Board, res: Response, thenFocus: bool): (o: Outcome)
    ensures Renders(res) ==>
      && o.board.cursor == res.pagination && o.board.entries == res.data
      && (o.board.prevDisabled <==> !res.pagination.hasPrev)
      && (o.board.nextDisabled <==> !res.pagination.hasNext)
      && o.notice == None && o.focus == thenFocus
    ensures !Renders(res) ==> o.board == b && !o.focus
    ensures o.notice.Some? <==> res.Failed?
    ensures res.Failed? ==> o.notice == Some(Error(LoadFailedText))
  {
    match res
    case Failed => Outcome(b, Some(Error(LoadFailedText)), false)
    case Fetched(data, pagination) =>
      if Renders(res) then
        Outcome(Board(pagination, data, !pagination.hasPrev, !pagination.hasNext), None, thenFocus)
      else Outcome(b, None, false)
  }

  /** The prev button: nothing while it is disabled, otherwise a request for the page before. */
  function ClickPrev(b: Board): (r: Option<(Board, Query)>)
    ensures r.Some? <==> !b.prevDisabled
    ensures r.Some? ==> r.value == Request(b, b.cursor.page - 1, true)
  {
    if b.prevDisabled then None else Some(Request(b, b.cursor.page - 1, true))
  }

  /** The next button: nothing while it is disabled, otherwise a request for the page after. */
  function ClickNext(b: Board): (r: Option<(Board, Query)>)
    ensures r.Some? <==> !b.nextDisabled
    ensures r.Some? ==> r.value == Request(b, b.cursor.page + 1, true)
  {
    if b.nextDisabled then None else Some(Request(b, b.cursor.page + 1, true))
  }

  /**
   * The board's invariant: either both buttons are disabled (a request is in
   * flight or has failed), or each button is enabled exactly when the cursor
   * says there is a page on that side. The cursor is one the server sent.
   */
  predicate Consistent(b: Board)
  {
    && ServerCursor(b.cursor)
    && ((b.prevDisabled && b.nextDisabled)
        || ((b.prevDisabled <==> !b.cursor.hasPrev) && (b.nextDisabled <==> !b.cursor.hasNext)))
  }

  /** An enabled prev or next button on a consistent board asks for a page that exists. */
  lemma ClicksStayInRange(b: Board)
    requires Consistent(b)
    ensures ClickPrev(b).Some? ==> 1 <= ClickPrev(b).value.1.page < b.cursor.page
    ensures ClickNext(b).Some? ==> b.cursor.page < ClickNext(b).value.1.page <= b.cursor.totalPages
  {
  }

  /** The events of the message section. */
  datatype BoardEvent = PrevClicked | NextClicked | Answered(res: Response, thenFocus: bool)

  /** Where a run of events leaves the board, and every query it sent. */
  datatype BoardTrace = BoardTrace(board: Board, queries: seq<Query>, notices: seq<Notice>)

  function RunBoard(b: Board, events: seq<BoardEvent>): BoardTrace
    decreases |events|
  {
    if |events| == 0 then BoardTrace(b, [], [])
    else
      match events[0]
      case PrevClicked =>
        (match ClickPrev(b)
         case None => RunBoard(b, events[1..])
         case Some(r) =>
           var t := RunBoard(r.0, events[1..]);
           t.(queries := [r.1] + t.queries))
      case NextClicked =>
        (match ClickNext(b)
         case None => RunBoard(b, events[1..])
         case Some(r) =>
           var t := RunBoard(r.0, events[1..]);
           t.(queries := [r.1] + t.queries))
      case Answered(res, f) =>
        var o := Receive(b, res, f);
        var t := RunBoard(o.board, events[1..]);
        match o.notice
        case None => t
        case Some(n) => t.(notices := [n] + t.notices)
  }

  /** Every page of entries the server sends carries a server cursor. */
  predicate HonestServer(events: seq<BoardEvent>)
  {
    forall k :: 0 <= k < |events| && events[k].Answered? && events[k].res.Fetched? ==>
      ServerCursor(events[k].res.pagination)
  }

  /** Every query asks for a page from 1 to `bound`. */
  predicate QueriesWithin(qs: seq<Query>, bound: int)
  {
    forall k :: 0 <= k < |qs| ==> 1 <= qs[k].page <= bound
  }

  /**
   * The invariant survives any run of clicks and answers from an honest
   * server, even with stale answers arriving out of order. So the buttons
   * never ask for page 0 or for a page past the last one the server reported.
   */
  lemma {:induction false} RunBoardConsistent(b: Board, events: seq<BoardEvent>, bound: int)
    requires Consistent(b) && HonestServer(events)
    requires b.cursor.totalPages <= bound
    requires forall k :: 0 <= k < |events| && events[k].Answered? && events[k].res.Fetched? ==>
      events[k].res.pagination.totalPages <= bound
    ensures Consistent(RunBoard(b, events).board)
    ensures QueriesWithin(RunBoard(b, events).queries, bound)
    decreases |events|
  {
    if |events| > 0 {
      var rest := events[1..];
      assert HonestServer(rest) by {
        forall k | 0 <= k < |rest| && rest[k].Answered? && rest[k].res.Fetched?
          ensures ServerCursor(rest[k].res.pagination)
        {
          assert rest[k] == events[k + 1];
        }
      }
      assert forall k :: 0 <= k < |rest| && rest[k].Answered? && rest[k].res.Fetched? ==>
        rest[k].res.pagination.totalPages <= bound by {
        forall k | 0 <= k < |rest| && rest[k].Answered? && rest[k].res.Fetched?
          ensures rest[k].res.pagination.totalPages <= bound
        {
          assert rest[k] == events[k + 1];
        }
      }
      match events[0]
      case PrevClicked =>
        ClicksStayInRange(b);
        match ClickPrev(b) {
          case None => RunBoardConsistent(b, rest, bound);
          case Some(r) => RunBoardConsistent(r.0, rest, bound);
        }
      case NextClicked =>
        ClicksStayInRange(b);
        match ClickNext(b) {
          case None => RunBoardConsistent(b, rest, bound);
          case Some(r) => RunBoardConsistent(r.0, rest, bound);
        }
      case Answered(res, f) =>
        RunBoardConsistent(Receive(b, res, f).board, rest, bound);
    }
  }

  /** The board right after start-up: `loadMessages()` on the first cursor, with no list yet. */
  function Opening(): (r: (Board, Query))
    ensures Consistent(r.0) && r.1 == Query(1, Limit, false)
  {
    Request(Board(FirstCursor, [], false, false), 1, false)
  }

  /**
   * After a failed request, one that returns no entries, or one with an entry
   * whose timestamp cannot be formatted, both buttons stay disabled: neither
   * prev nor next does anything until some later request succeeds.
   */
  lemma FailureLocksPaging(b: Board, page: int, res: Response, f: bool)
    requires !Renders(res)
    ensures var o := Receive(Request(b, page, f).0, res, f);
      ClickPrev(o.board).None? && ClickNext(o.board).None?
  {
  }

  /** A page with one entry whose timestamp cannot be formatted leaves the board as it was. */
  lemma UnformattableEntryChangesNothing(b: Board, data: seq<Entry>, pagination: Cursor, f: bool, i: nat)
    requires i < |data| && !Formattable(data[i])
    ensures Receive(b, Fetched(data, pagination), f).board == b
  {
  }

  /**
   * The response handler as evidently intended: an answer that changes
   * nothing gives the buttons back their state from the cursor it kept.
   */
  function ReceiveFixed(b: Board, res: Response, thenFocus: bool): (o: Outcome)
    ensures Renders(res) ==> o == Receive(b, res, thenFocus)
    ensures !Renders(res) ==>
      && o.board.cursor == b.cursor && o.board.entries == b.entries
      && (o.board.prevDisabled <==> !b.cursor.hasPrev)
      && (o.board.nextDisabled <==> !b.cursor.hasNext)
      && o.notice == Receive(b, res, thenFocus).notice
      && !o.focus
  {
    var o := Receive(b, res, thenFocus);
    if Renders(res) then o
    else o.(board := b.(prevDisabled := !b.cursor.hasPrev, nextDisabled := !b.cursor.hasNext))
  }

  /**
   * With the fixed handler every answer leaves the buttons matching the
   * cursor, so after a failure the guest can page on from where they were.
   */
  lemma FixedReopensPaging(b: Board, page: int, res: Response, f: bool)
    requires Consistent(b)
    requires res.Fetched? ==> ServerCursor(res.pagination)
    ensures var o := ReceiveFixed(Request(b, page, f).0, res, f);
      && Consistent(o.board)
      && (ClickPrev(o.board).Some? <==> o.board.cursor.hasPrev)
      && (ClickNext(o.board).Some? <==> o.board.cursor.hasNext)
  {
  }

  /* ---------------- Submission ---------------- */

  /** The free-text fields of the form. */
  datatype Inputs = Inputs(name: string, guests: string, message: string)

  /** The reservation section: the attendance choice, the text fields, the submit button and the message board. */
  datatype Section = Section(form: Attendance.Form, inputs: Inputs, submitDisabled: bool, board: Board)

  /**
   * The submit handler up to the POST. The button is disabled and the payload
   * is built. `parsedGuests` is `parseInt` of the guest field.
   */
  function Submit(s: Section, parsedGuests: Option<int>): (r: (Section, Payload))
    ensures r.0 == s.(submitDisabled := true)
    ensures r.1 == BuildPayload(s.inputs.name, s.form.input, parsedGuests, s.inputs.message)
  {
    (s.(submitDisabled := true), BuildPayload(s.inputs.name, s.form.input, parsedGuests, s.inputs.message))
  }

  /**
   * The POST succeeded: thank the guest, reset the form, clear the attendance
   * buttons, load page 1 and focus the board when it arrives, and enable
   * submit again. The text fields are emptied, but the hidden attendance
   * input keeps the last choice.
   */
  function SubmitSucceeded(s: Section): (r: (Section, Notice, Query))
    ensures r.1 == Success(ThankYouText)
    ensures r.0.inputs == Inputs("", "", "") && r.0.form == Attendance.Reset(s.form)
    ensures Attendance.ActiveCount(r.0.form.buttons) == 0 && r.0.form.input == s.form.input
    ensures !r.0.submitDisabled
    ensures r.0.board.prevDisabled && r.0.board.nextDisabled && r.0.board.cursor == s.board.cursor
    ensures r.0.board.entries == s.board.entries
    ensures r.2 == Query(1, Limit, true)
  {
    var (board, q) := Request(s.board, 1, true);
    (Section(Attendance.Reset(s.form), Inputs("", "", ""), false, board), Success(ThankYouText), q)
  }

  /** The POST failed: show an error and enable submit again. Everything the guest typed is kept. */
  function SubmitFailed(s: Section): (r: (Section, Notice))
    ensures r.0 == s.(submitDisabled := false)
    ensures r.1 == Error(SubmitFailedText)
  {
    (s.(submitDisabled := false), Error(SubmitFailedText))
  }

  /** A failed submission returns the section to where it was, ready to submit again. */
  lemma FailedSubmitRestores(s: Section, parsedGuests: Option<int>)
    requires !s.submitDisabled
    ensures SubmitFailed(Submit(s, parsedGuests).0).0 == s
  {
  }

  /** Either way the submission ends, the submit button is enabled again. */
  lemma SubmitAlwaysReenables(s: Section, parsedGuests: Option<int>)
    ensures !SubmitSucceeded(Submit(s, parsedGuests).0).0.submitDisabled
    ensures !SubmitFailed(Submit(s, parsedGuests).0).0.submitDisabled
  {
  }

  /** A successful submission keeps the board consistent while page 1 loads. */
  lemma SucceededBoardConsistent(s: Section)
    requires ServerCursor(s.board.cursor)
    ensures Consistent(SubmitSucceeded(s).0.board)
  {
  }
}
