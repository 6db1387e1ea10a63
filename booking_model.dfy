/**
 * Values and step functions of the pre-registration appointment booking
 * service (BookingService.java).
 *
 * The service works on three pieces of state, gathered in `Ledger`:
 *  - the per-slot kiosk counters (`AvailibityEntity.availableKiosks`), keyed
 *    by centre, date, from-time and to-time;
 *  - the booking records (`RegistrationBookingEntity`), keyed by
 *    pre-registration id, each with a status code;
 *  - the applicant status held by the external pre-registration status
 *    service.
 *
 * Each function below gives, for one Java method, the new ledger and the
 * method's outcome: a returned value, or the exception that escapes it.
 * The helpers the service calls but whose bodies are not part of this model
 * (`BookingServiceUtil`, `ValidationUtil`) are the oracles in `Helpers`.
 */
module BookingModel {
  import opened Wrappers
  import opened JavaText

  // ---------------------------------------------------------------------
  // Data
  // ---------------------------------------------------------------------

  /** Status codes; any other code the status service returns is `OtherStatus`. */
  datatype StatusCode = PendingAppointment | Booked | Canceled | Expired | OtherStatus(code: string)

  /**
   * Centre, date and time window of a slot. The date is a day number and the
   * times are the parsed `LocalTime` values, both as integers.
   */
  datatype SlotKey = SlotKey(registrationCenterId: string, regDate: int, slotFromTime: int, slotToTime: int)

  /** `AvailibityEntity`: the number of free kiosks of a slot, a Java `int`. */
  datatype Slot = Slot(availableKiosks: int32)

  /** `RegistrationBookingEntity`: the slot booked, the status code and the update stamp. */
  datatype BookingRecord = BookingRecord(slot: SlotKey, statusCode: StatusCode, updDate: Option<int>)

  /** Slot counters, booking records and the external applicant status. */
  datatype Ledger = Ledger(
    slots: map<SlotKey, Slot>,
    bookings: map<string, BookingRecord>,
    statuses: map<string, StatusCode>)

  /** The exceptions the modelled code lets escape. */
  datatype Fault =
    | NullDereference                             // a `NullPointerException` on a missing row or missing details
    | StatusUnavailable(preRegistrationId: string) // the status service knows no status for the id
    | ArithmeticOverflow                          // `Math.addExact` overflowed
    | Raised(errorCode: string)                   // an exception thrown inside a helper

  /** Answer of a boolean helper: true, false, or an exception. */
  datatype Check = Yes | No | Raise(fault: Fault)

  /** `CancelBookingDTO`: the id and the slot to release. */
  datatype CancelBookingDto = CancelBookingDto(preRegistrationId: string, slot: SlotKey)

  /** One element of a `bookAppointment` request. */
  datatype BookingRequest = BookingRequest(
    preRegistrationId: string,
    oldBookingDetails: Option<SlotKey>,
    newBookingDetails: Option<SlotKey>)

  /** `BookingStatusDTO`. */
  datatype BookingStatusDto = BookingStatusDto(preRegistrationId: string, bookingStatus: StatusCode, bookingMessage: string)

  /** `CancelBookingResponseDTO`: transaction id and message, both null until set. */
  datatype CancelResponse = CancelResponse(transactionId: Option<string>, message: Option<string>)

  /** `PreRegIdsByRegCenterIdResponseDTO`. */
  datatype PreRegIdsByRegCenterIdResponse = PreRegIdsByRegCenterIdResponse(registrationCenterId: string, preRegistrationIds: seq<string>)

  /** `BookingServiceUtil`'s checks and the status-service calls, as oracles. */
  datatype Helpers = Helpers(
    mandatoryParameterCheck: (string, Option<SlotKey>, Option<SlotKey>) -> Check,
    isNotDuplicate: (SlotKey, Option<SlotKey>) -> Check,
    isKiosksAvailable: Option<Slot> -> Check,
    mandatoryParameterCheckforCancel: CancelBookingDto -> Check,
    callGetStatusForCancel: (string, Option<StatusCode>) -> Check,
    callUpdateStatus: (string, StatusCode) -> Option<Fault>)

  const BOOKED_MESSAGE := "APPOINTMENT_SUCCESSFULLY_BOOKED"
  const CANCELED_MESSAGE := "APPOINTMENT_SUCCESSFULLY_CANCELED"
  const SYNCED_MESSAGE := "MASTER_DATA_SYNCED_SUCCESSFULLY"
  const EMPTY_CANCEL_RESPONSE := CancelResponse(None, None)

  // ---------------------------------------------------------------------
  // Lookups
  // ---------------------------------------------------------------------

  /** `findByFromTimeAndToTimeAndRegDateAndRegcntrId`: the slot row, or null. */
  function FindSlot(s: Ledger, key: SlotKey): Option<Slot> {
    if key in s.slots then Some(s.slots[key]) else None
  }

  /** The status the status service currently holds for `id`. */
  function StatusOf(s: Ledger, id: string): Option<StatusCode> {
    if id in s.statuses then Some(s.statuses[id]) else None
  }

  /** `id` has a booking record with status BOOKED (`findPreIdAndStatusCode(id, BOOKED)` is not null). */
  predicate HasActiveBooking(s: Ledger, id: string) {
    id in s.bookings && s.bookings[id].statusCode == Booked
  }

  /** The statuses `bookAppointment` lets through to cancel and book. */
  predicate MayBook(code: StatusCode) {
    code == PendingAppointment || code == Expired
  }

  // ---------------------------------------------------------------------
  // book
  // ---------------------------------------------------------------------

  /** Persist the BOOKED record, then set the applicant's status to BOOKED. */
  function SaveAndMarkBooked(s: Ledger, h: Helpers, id: string, d: SlotKey): (Ledger, Result<BookingStatusDto, Fault>) {
    var saved := s.(bookings := s.bookings[id := BookingRecord(d, Booked, None)]);
    match h.callUpdateStatus(id, Booked)
    case Some(f) => (saved, Err(f))
    case None => (saved.(statuses := saved.statuses[id := Booked]), Ok(BookingStatusDto(id, Booked, BOOKED_MESSAGE)))
  }

  /**
   * `book(id, details)`: look the slot up; when `isKiosksAvailable` says yes,
   * decrement its counter; then, whatever the check said, save the booking
   * and set the status to BOOKED.
   */
  function BookSpec(s: Ledger, h: Helpers, id: string, d: SlotKey): (Ledger, Result<BookingStatusDto, Fault>) {
    var entity := FindSlot(s, d);
    match h.isKiosksAvailable(entity)
    case Raise(f) => (s, Err(f))
    case No => SaveAndMarkBooked(s, h, id, d)
    case Yes =>
      if entity.None? then (s, Err(NullDereference))
      else
        var decremented := s.(slots := s.slots[d := Slot(AddWrap(entity.value.availableKiosks, -1))]);
        SaveAndMarkBooked(decremented, h, id, d)
  }

  // ---------------------------------------------------------------------
  // cancelBooking
  // ---------------------------------------------------------------------

  /**
   * `cancelBooking(dto)`: when both checks pass, mark the id's BOOKED record
   * CANCELED with stamp `now`, set the status to PENDING_APPOINTMENT and add
   * one to the counter of the slot named in the request; a check that says
   * no gives the empty response.
   */
  function CancelSpec(s: Ledger, h: Helpers, dto: CancelBookingDto, now: int, txn: string): (Ledger, Result<CancelResponse, Fault>) {
    var id := dto.preRegistrationId;
    match h.mandatoryParameterCheckforCancel(dto)
    case Raise(f) => (s, Err(f))
    case No => (s, Ok(EMPTY_CANCEL_RESPONSE))
    case Yes =>
      match h.callGetStatusForCancel(id, StatusOf(s, id))
      case Raise(f) => (s, Err(f))
      case No => (s, Ok(EMPTY_CANCEL_RESPONSE))
      case Yes =>
        if !HasActiveBooking(s, id) then (s, Err(NullDereference))
        else
          var canceled := s.(bookings := s.bookings[id := s.bookings[id].(statusCode := Canceled, updDate := Some(now))]);
          match h.callUpdateStatus(id, PendingAppointment)
          case Some(f) => (canceled, Err(f))
          case None =>
            var pending := canceled.(statuses := canceled.statuses[id := PendingAppointment]);
            if dto.slot !in s.slots then (pending, Err(NullDereference))
            else
              var released := pending.(slots := pending.slots[dto.slot := Slot(AddWrap(s.slots[dto.slot].availableKiosks, 1))]);
              (released, Ok(CancelResponse(Some(txn), Some(CANCELED_MESSAGE))))
  }

  // ---------------------------------------------------------------------
  // bookAppointment
  // ---------------------------------------------------------------------

  /** `book` on the new details, which may be null. */
  function BookNew(s: Ledger, h: Helpers, id: string, d: Option<SlotKey>): (Ledger, Result<Option<BookingStatusDto>, Fault>) {
    if d.None? then (s, Err(NullDereference))
    else
      var (s1, r) := BookSpec(s, h, id, d.value);
      match r
      case Err(f) => (s1, Err(f))
      case Ok(dto) => (s1, Ok(Some(dto)))
  }

  /**
   * One turn of the loop of `bookAppointment`: the new ledger, and either the
   * entry it appends to the response list (`Some`), no entry (`None`), or the
   * exception that ends the loop.
   */
  function ItemStep(s: Ledger, h: Helpers, item: BookingRequest, now: int, txn: string): (Ledger, Result<Option<BookingStatusDto>, Fault>) {
    var id := item.preRegistrationId;
    if id !in s.statuses then (s, Err(StatusUnavailable(id)))
    else if !MayBook(s.statuses[id]) then (s, Ok(None))
    else
      match h.mandatoryParameterCheck(id, item.oldBookingDetails, item.newBookingDetails)
      case Raise(f) => (s, Err(f))
      case No => (s, Ok(None))
      case Yes =>
        if item.oldBookingDetails.None? then BookNew(s, h, id, item.newBookingDetails)
        else
          match h.isNotDuplicate(item.oldBookingDetails.value, item.newBookingDetails)
          case Raise(f) => (s, Err(f))
          case No => (s, Ok(None))
          case Yes =>
            var (s1, c) := CancelSpec(s, h, CancelBookingDto(id, item.oldBookingDetails.value), now, txn);
            if c.Err? then (s1, Err(c.error))
            else BookNew(s1, h, id, item.newBookingDetails)
  }

  /** Prefix the entries already collected to the outcome of the rest of the loop. */
  function PrependEntries(done: seq<BookingStatusDto>, rest: (Ledger, Result<seq<BookingStatusDto>, Fault>)): (Ledger, Result<seq<BookingStatusDto>, Fault>) {
    match rest.1
    case Err(f) => (rest.0, Err(f))
    case Ok(entries) => (rest.0, Ok(done + entries))
  }

  /** Loop helper with no counterpart in the source: prepending no entries changes nothing. */
  lemma PrependEntriesNothing(x: (Ledger, Result<seq<BookingStatusDto>, Fault>))
    ensures PrependEntries([], x) == x
  {
    if x.1.Ok? {
      assert [] + x.1.value == x.1.value;
    }
  }

  /** Loop helper with no counterpart in the source: two prepends are one prepend of both runs. */
  lemma PrependEntriesTwice(a: seq<BookingStatusDto>, b: seq<BookingStatusDto>, x: (Ledger, Result<seq<BookingStatusDto>, Fault>))
    ensures PrependEntries(a, PrependEntries(b, x)) == PrependEntries(a + b, x)
  {
    if x.1.Ok? {
      assert a + (b + x.1.value) == (a + b) + x.1.value;
    }
  }

  /** The loop of `bookAppointment` over `items`, stopping at the first exception. */
  function RunItems(s: Ledger, h: Helpers, items: seq<BookingRequest>, now: int, txn: string): (Ledger, Result<seq<BookingStatusDto>, Fault>)
    decreases |items|
  {
    if items == [] then (s, Ok([]))
    else
      var (s1, r1) := ItemStep(s, h, items[0], now, txn);
      match r1
      case Err(f) => (s1, Err(f))
      case Ok(entry) =>
        PrependEntries(if entry.Some? then [entry.value] else [], RunItems(s1, h, items[1..], now, txn))
  }

  /** `bookAppointment`: the request validation, then the loop. */
  function BookAppointmentSpec(s: Ledger, h: Helpers, requestValid: Check, items: seq<BookingRequest>, now: int, txn: string): (Ledger, Result<seq<BookingStatusDto>, Fault>) {
    match requestValid
    case Raise(f) => (s, Err(f))
    case No => (s, Ok([]))
    case Yes => RunItems(s, h, items, now, txn)
  }

  // ---------------------------------------------------------------------
  // Queries
  // ---------------------------------------------------------------------

  /** `getAppointmentDetails(id)`: the slot of the id's BOOKED record; no such record is a null dereference. */
  function AppointmentDetails(s: Ledger, id: string): Result<SlotKey, Fault> {
    if HasActiveBooking(s, id) then Ok(s.bookings[id].slot) else Err(NullDereference)
  }

  /** `findByRegistrationCenterIdAndStatusCode(centre, BOOKED)`, as the set of ids it returns. */
  function BookedIdsAt(s: Ledger, centre: string): set<string> {
    set id | id in s.bookings && s.bookings[id].statusCode == Booked && s.bookings[id].slot.registrationCenterId == centre
  }

  /** `list.retainAll(keep)`: the elements of `ids` that are in `keep`, in their order. */
  function Retain(ids: seq<string>, keep: set<string>): seq<string>
    decreases |ids|
  {
    if ids == [] then []
    else Retain(ids[..|ids| - 1], keep) + (if ids[|ids| - 1] in keep then [ids[|ids| - 1]] else [])
  }

  // ---------------------------------------------------------------------
  // addAvailability and getAvailability
  // ---------------------------------------------------------------------

  /** The (centre, date) pairs from `d` to `end` inclusive, in date order. */
  function Days<C>(c: C, d: int, end: int): seq<(C, int)>
    decreases if d <= end then end - d + 1 else 0
  {
    if d > end then [] else [(c, d)] + Days(c, d + 1, end)
  }

  /** Every centre in order, and for each every date from `start` to `end`. */
  function SyncWindow<C>(centres: seq<C>, start: int, end: int): seq<(C, int)>
    decreases |centres|
  {
    if centres == [] then [] else Days(centres[0], start, end) + SyncWindow(centres[1..], start, end)
  }

  /**
   * The inner date loop of `addAvailability` for one centre: the slot map as
   * `timeSlotCalculator` leaves it, the first exception, and the pairs visited.
   */
  function SyncDays<C>(c: C, holidays: seq<string>, d: int, end: int, m: map<SlotKey, Slot>,
                       slotCalculator: (C, seq<string>, int, map<SlotKey, Slot>) -> Result<map<SlotKey, Slot>, Fault>)
    : (map<SlotKey, Slot>, Option<Fault>, seq<(C, int)>)
    decreases if d <= end then end - d + 1 else 0
  {
    if d > end then (m, None, [])
    else
      match slotCalculator(c, holidays, d, m)
      case Err(f) => (m, Some(f), [(c, d)])
      case Ok(m1) =>
        var (m2, e2, v2) := SyncDays(c, holidays, d + 1, end, m1, slotCalculator);
        (m2, e2, [(c, d)] + v2)
  }

  /** The outer centre loop of `addAvailability`. */
  function SyncCentres<C>(centres: seq<C>, start: int, end: int, m: map<SlotKey, Slot>,
                          holidaysOf: C -> Result<seq<string>, Fault>,
                          slotCalculator: (C, seq<string>, int, map<SlotKey, Slot>) -> Result<map<SlotKey, Slot>, Fault>)
    : (map<SlotKey, Slot>, Option<Fault>, seq<(C, int)>)
    decreases |centres|
  {
    if centres == [] then (m, None, [])
    else
      match holidaysOf(centres[0])
      case Err(f) => (m, Some(f), [])
      case Ok(holidays) =>
        var (m1, e1, v1) := SyncDays(centres[0], holidays, start, end, m, slotCalculator);
        if e1.Some? then (m1, e1, v1)
        else
          var (m2, e2, v2) := SyncCentres(centres[1..], start, end, m1, holidaysOf, slotCalculator);
          (m2, e2, v1 + v2)
  }

  /**
   * The inner loop of `getAvailability`: one entry, made by `slotSetter`, for
   * each date of `dates` (from index `from` on) whose slot list is not empty.
   */
  function ListedDays<R, T>(regId: string, dates: seq<int>, from: nat, slotsOn: (string, int) -> seq<R>,
                            slotSetter: (seq<int>, nat, seq<R>) -> T): seq<T>
    requires from <= |dates|
    decreases |dates| - from
  {
    if from == |dates| then []
    else
      var rows := slotsOn(regId, dates[from]);
      (if rows != [] then [slotSetter(dates, from, rows)] else []) + ListedDays(regId, dates, from + 1, slotsOn, slotSetter)
  }

  /** `AvailabilityDto`: the centre id and one entry per listed date. */
  datatype Availability<T> = Availability(regCenterId: string, centerDetails: seq<T>)

  /** Add the pairs already visited in front of the outcome of the rest of a sync loop. */
  function WithVisited<C>(before: seq<(C, int)>, after: (map<SlotKey, Slot>, Option<Fault>, seq<(C, int)>))
    : (map<SlotKey, Slot>, Option<Fault>, seq<(C, int)>)
  {
    (after.0, after.1, before + after.2)
  }

  /** Loop helper with no counterpart in the source: prepending no visited pairs changes nothing. */
  lemma WithVisitedNothing<C>(x: (map<SlotKey, Slot>, Option<Fault>, seq<(C, int)>))
    ensures WithVisited([], x) == x
  {
    assert [] + x.2 == x.2;
  }

  /** Loop helper with no counterpart in the source: two prepends of visited pairs are one prepend of both runs. */
  lemma WithVisitedTwice<C>(a: seq<(C, int)>, b: seq<(C, int)>, x: (map<SlotKey, Slot>, Option<Fault>, seq<(C, int)>))
    ensures WithVisited(a, WithVisited(b, x)) == WithVisited(a + b, x)
  {
    assert a + (b + x.2) == (a + b) + x.2;
  }

  /** `addAvailability`: fetch the centres, then the nested loops from today to today + noOfDays. */
  function AddAvailabilitySpec<C>(m: map<SlotKey, Slot>, today: int, noOfDays: int32,
                                  centres: Result<seq<C>, Fault>,
                                  holidaysOf: C -> Result<seq<string>, Fault>,
                                  slotCalculator: (C, seq<string>, int, map<SlotKey, Slot>) -> Result<map<SlotKey, Slot>, Fault>)
    : (map<SlotKey, Slot>, Result<string, Fault>, seq<(C, int)>)
  {
    match centres
    case Err(f) => (m, Err(f), [])
    case Ok(cs) =>
      var (m1, e1, v1) := SyncCentres(cs, today, today + noOfDays as int, m, holidaysOf, slotCalculator);
      (m1, if e1.Some? then Err(e1.value) else Ok(SYNCED_MESSAGE), v1)
  }
}
