/**
 * The booking service as an object over its state (BookingService.java):
 * the slot counters, the booking records and the external applicant status
 * are fields that the methods update step by step, as the Java code updates
 * the entities and calls the status service. Each method is proved to leave
 * exactly the state, and return exactly the outcome, that the matching step
 * function of `BookingModel` gives.
 */
module BookingService {
  import opened Wrappers
  import opened JavaText
  import opened BookingModel

  class BookingLedger {
    /** `AvailibityEntity` rows. */
    var slots: map<SlotKey, Slot>
    /** `RegistrationBookingEntity` rows. */
    var bookings: map<string, BookingRecord>
    /** The external pre-registration status of each applicant. */
    var statuses: map<string, StatusCode>

    function Snapshot(): Ledger
      reads this
    {
      Ledger(slots, bookings, statuses)
    }

    constructor (initial: Ledger)
      ensures Snapshot() == initial
    {
      slots, bookings, statuses := initial.slots, initial.bookings, initial.statuses;
    }

    /**
     * `book`: decrement the slot only when `isKiosksAvailable` holds, then
     * save the BOOKED record and set the status to BOOKED in any case.
     */
    method Book(h: Helpers, id: string, d: SlotKey) returns (r: Result<BookingStatusDto, Fault>)
      modifies this
      ensures (Snapshot(), r) == BookSpec(old(Snapshot()), h, id, d)
    {
      var entity := if d in slots then Some(slots[d]) else None;
      match h.isKiosksAvailable(entity) {
        case Raise(f) =>
          return Err(f);
        case Yes =>
          if entity.None? {
            return Err(NullDereference);
          }
          slots := slots[d := Slot(AddWrap(entity.value.availableKiosks, -1))];
        case No =>
      }
      bookings := bookings[id := BookingRecord(d, Booked, None)];
      var failure := h.callUpdateStatus(id, Booked);
      if failure.Some? {
        return Err(failure.value);
      }
      statuses := statuses[id := Booked];
      r := Ok(BookingStatusDto(id, Booked, BOOKED_MESSAGE));
    }

    /**
     * `cancelBooking`: after both checks, cancel the BOOKED record, reset the
     * status to PENDING_APPOINTMENT and add one to the request's slot.
     */
    method CancelBooking(h: Helpers, dto: CancelBookingDto, now: int, txn: string) returns (r: Result<CancelResponse, Fault>)
      modifies this
      ensures (Snapshot(), r) == CancelSpec(old(Snapshot()), h, dto, now, txn)
    {
      var id := dto.preRegistrationId;
      var mandatory := h.mandatoryParameterCheckforCancel(dto);
      if mandatory.Raise? {
        return Err(mandatory.fault);
      } else if mandatory.No? {
        return Ok(EMPTY_CANCEL_RESPONSE);
      }
      var allowed := h.callGetStatusForCancel(id, if id in statuses then Some(statuses[id]) else None);
      if allowed.Raise? {
        return Err(allowed.fault);
      } else if allowed.No? {
        return Ok(EMPTY_CANCEL_RESPONSE);
      }
      var entity := if dto.slot in slots then Some(slots[dto.slot]) else None;
      if !(id in bookings && bookings[id].statusCode == Booked) {
        return Err(NullDereference);
      }
      bookings := bookings[id := bookings[id].(statusCode := Canceled, updDate := Some(now))];
      var failure := h.callUpdateStatus(id, PendingAppointment);
      if failure.Some? {
        return Err(failure.value);
      }
      statuses := statuses[id := PendingAppointment];
      if entity.None? {
        return Err(NullDereference);
      }
      slots := slots[dto.slot := Slot(AddWrap(entity.value.availableKiosks, 1))];
      r := Ok(CancelResponse(Some(txn), Some(CANCELED_MESSAGE)));
    }

    /** `book` on details that may be null. */
    method BookDetails(h: Helpers, id: string, d: Option<SlotKey>) returns (r: Result<Option<BookingStatusDto>, Fault>)
      modifies this
      ensures (Snapshot(), r) == BookNew(old(Snapshot()), h, id, d)
    {
      if d.None? {
        return Err(NullDereference);
      }
      var booked := Book(h, id, d.value);
      r := if booked.Err? then Err(booked.error) else Ok(Some(booked.value));
    }

    /** One turn of the request loop of `bookAppointment`. */
    method ProcessItem(h: Helpers, item: BookingRequest, now: int, txn: string) returns (r: Result<Option<BookingStatusDto>, Fault>)
      modifies this
      ensures (Snapshot(), r) == ItemStep(old(Snapshot()), h, item, now, txn)
    {
      var id := item.preRegistrationId;
      if id !in statuses {
        return Err(StatusUnavailable(id));
      }
      var code := statuses[id];
      if !(code == PendingAppointment || code == Expired) {
        return Ok(None);
      }
      var mandatory := h.mandatoryParameterCheck(id, item.oldBookingDetails, item.newBookingDetails);
      if mandatory.Raise? {
        return Err(mandatory.fault);
      } else if mandatory.No? {
        return Ok(None);
      }
      if item.oldBookingDetails.None? {
        r := BookDetails(h, id, item.newBookingDetails);
        return;
      }
      var notDuplicate := h.isNotDuplicate(item.oldBookingDetails.value, item.newBookingDetails);
      if notDuplicate.Raise? {
        return Err(notDuplicate.fault);
      } else if notDuplicate.No? {
        return Ok(None);
      }
      // `cancel` runs `cancelBooking` and returns true whenever it returns.
      var canceled := CancelBooking(h, CancelBookingDto(id, item.oldBookingDetails.value), now, txn);
      if canceled.Err? {
        return Err(canceled.error);
      }
      r := BookDetails(h, id, item.newBookingDetails);
    }

    /**
     * `bookAppointment`: validate the request, then process the items in
     * order, appending each `book` result; the first exception ends the loop.
     */
    method BookAppointment(h: Helpers, requestValid: Check, items: seq<BookingRequest>, now: int, txn: string)
      returns (r: Result<seq<BookingStatusDto>, Fault>)
      modifies this
      ensures (Snapshot(), r) == BookAppointmentSpec(old(Snapshot()), h, requestValid, items, now, txn)
    {
      if requestValid.Raise? {
        return Err(requestValid.fault);
      } else if requestValid.No? {
        return Ok([]);
      }
      var respList: seq<BookingStatusDto> := [];
      var i := 0;
      PrependEntriesNothing(RunItems(Snapshot(), h, items, now, txn));
      while i < |items|
        invariant 0 <= i <= |items|
        invariant RunItems(old(Snapshot()), h, items, now, txn) == PrependEntries(respList, RunItems(Snapshot(), h, items[i..], now, txn))
      {
        assert items[i..][0] == items[i] && items[i..][1..] == items[i + 1..];
        ghost var before := Snapshot();
        var entry := ProcessItem(h, items[i], now, txn);
        if entry.Err? {
          assert RunItems(before, h, items[i..], now, txn) == (Snapshot(), Err(entry.error));
          return Err(entry.error);
        }
        ghost var rest := RunItems(Snapshot(), h, items[i + 1..], now, txn);
        var added := if entry.value.Some? then [entry.value.value] else [];
        assert RunItems(before, h, items[i..], now, txn) == PrependEntries(added, rest);
        PrependEntriesTwice(respList, added, rest);
        respList := respList + added;
        i := i + 1;
      }
      assert items[i..] == [];
      assert respList + [] == respList;
      r := Ok(respList);
    }

    /** `getAppointmentDetails`: the slot of the id's BOOKED record, or the null dereference when there is none. */
    method GetAppointmentDetails(id: string) returns (r: Result<SlotKey, Fault>)
      ensures r.Ok? <==> HasActiveBooking(Snapshot(), id)
      ensures r.Ok? ==> r.value == bookings[id].slot
      ensures r.Err? ==> r.error == NullDereference
    {
      if id in bookings && bookings[id].statusCode == Booked {
        r := Ok(bookings[id].slot);
      } else {
        r := Err(NullDereference);
      }
    }

    /**
     * `getPreIdsByRegCenterId`: the requested ids, in request order, that
     * have a BOOKED record at the trimmed centre id; the response repeats the
     * centre id as given.
     */
    method GetPreIdsByRegCenterId(regCenterId: string, preRegistrationIds: seq<string>)
      returns (r: PreRegIdsByRegCenterIdResponse)
      ensures r.registrationCenterId == regCenterId
      ensures r.preRegistrationIds == Retain(preRegistrationIds, BookedIdsAt(Snapshot(), Trim(regCenterId)))
    {
      var entityPreRegIds := BookedIdsAt(Snapshot(), Trim(regCenterId));
      var kept: seq<string> := [];
      for i := 0 to |preRegistrationIds|
        invariant kept == Retain(preRegistrationIds[..i], entityPreRegIds)
      {
        assert preRegistrationIds[..i + 1][..i] == preRegistrationIds[..i];
        if preRegistrationIds[i] in entityPreRegIds {
          kept := kept + [preRegistrationIds[i]];
        }
      }
      assert preRegistrationIds[..|preRegistrationIds|] == preRegistrationIds;
      r := PreRegIdsByRegCenterIdResponse(regCenterId, kept);
    }

    /**
     * `addAvailability`: for every centre, fetch its holidays, then run
     * `timeSlotCalculator` on every date from today to today + noOfDays
     * inclusive; the first exception ends the sync.
     */
    method AddAvailability<C>(today: int, noOfDays: int32, centres: Result<seq<C>, Fault>,
                              holidaysOf: C -> Result<seq<string>, Fault>,
                              slotCalculator: (C, seq<string>, int, map<SlotKey, Slot>) -> Result<map<SlotKey, Slot>, Fault>)
      returns (r: Result<string, Fault>, visited: seq<(C, int)>)
      modifies this
      ensures bookings == old(bookings) && statuses == old(statuses)
      ensures (slots, r, visited) == AddAvailabilitySpec(old(slots), today, noOfDays, centres, holidaysOf, slotCalculator)
    {
      if centres.Err? {
        return Err(centres.error), [];
      }
      var cs := centres.value;
      var end := today + noOfDays as int;
      visited := [];
      var i := 0;
      WithVisitedNothing(SyncCentres(cs, today, end, slots, holidaysOf, slotCalculator));
      while i < |cs|
        invariant 0 <= i <= |cs|
        invariant bookings == old(bookings) && statuses == old(statuses)
        invariant SyncCentres(cs, today, end, old(slots), holidaysOf, slotCalculator)
                  == WithVisited(visited, SyncCentres(cs[i..], today, end, slots, holidaysOf, slotCalculator))
      {
        assert cs[i..][0] == cs[i] && cs[i..][1..] == cs[i + 1..];
        var holidays := holidaysOf(cs[i]);
        if holidays.Err? {
          assert SyncCentres(cs[i..], today, end, slots, holidaysOf, slotCalculator) == (slots, Some(holidays.error), []);
          assert visited + [] == visited;
          return Err(holidays.error), visited;
        }
        ghost var atCentre := slots;
        var failure, inner := SyncDates(cs[i], holidays.value, today, end, slotCalculator);
        assert SyncDays(cs[i], holidays.value, today, end, atCentre, slotCalculator) == (slots, failure, inner);
        if failure.Some? {
          assert SyncCentres(cs[i..], today, end, atCentre, holidaysOf, slotCalculator) == (slots, failure, inner);
          return Err(failure.value), visited + inner;
        }
        WithVisitedTwice(visited, inner, SyncCentres(cs[i + 1..], today, end, slots, holidaysOf, slotCalculator));
        visited := visited + inner;
        i := i + 1;
      }
      assert cs[i..] == [];
      assert visited + [] == visited;
      assert SyncCentres(cs, today, end, old(slots), holidaysOf, slotCalculator) == (slots, None, visited);
      r := Ok(SYNCED_MESSAGE);
    }

    /**
     * The inner loop of `addAvailability`: run `timeSlotCalculator` for one
     * centre on every date from `start` to `end` inclusive; gives the first
     * exception, if any, and the (centre, date) pairs the loop reached.
     */
    method SyncDates<C>(c: C, holidays: seq<string>, start: int, end: int,
                        slotCalculator: (C, seq<string>, int, map<SlotKey, Slot>) -> Result<map<SlotKey, Slot>, Fault>)
      returns (failure: Option<Fault>, visited: seq<(C, int)>)
      modifies this
      ensures bookings == old(bookings) && statuses == old(statuses)
      ensures (slots, failure, visited) == SyncDays(c, holidays, start, end, old(slots), slotCalculator)
    {
      visited := [];
      var day := start;
      WithVisitedNothing(SyncDays(c, holidays, start, end, slots, slotCalculator));
      while day <= end
        invariant bookings == old(bookings) && statuses == old(statuses)
        invariant SyncDays(c, holidays, start, end, old(slots), slotCalculator)
                  == WithVisited(visited, SyncDays(c, holidays, day, end, slots, slotCalculator))
        decreases if day <= end then end - day + 1 else 0
      {
        var next := slotCalculator(c, holidays, day, slots);
        if next.Err? {
          assert SyncDays(c, holidays, day, end, slots, slotCalculator) == (slots, Some(next.error), [(c, day)]);
          return Some(next.error), visited + [(c, day)];
        }
        WithVisitedTwice(visited, [(c, day)], SyncDays(c, holidays, day + 1, end, next.value, slotCalculator));
        visited := visited + [(c, day)];
        slots := next.value;
        day := day + 1;
      }
      assert SyncDays(c, holidays, day, end, slots, slotCalculator) == (slots, None, []);
      assert visited + [] == visited;
      failure := None;
    }
  }

  /**
   * `getAvailability`: query the dates from today + 2 to today + noOfDays + 2
   * (the `Math.addExact` on `noOfDays + 2` throws on `int` overflow) and list
   * every date whose slot list is not empty.
   */
  method GetAvailability<R, T>(regId: string, today: int, noOfDays: int32,
                               findDate: (string, int, int) -> seq<int>,
                               slotsOn: (string, int) -> seq<R>,
                               slotSetter: (seq<int>, nat, seq<R>) -> T)
    returns (r: Result<Availability<T>, Fault>)
    ensures r.Err? <==> noOfDays as int + 2 > INT32_MAX
    ensures r.Err? ==> r.error == ArithmeticOverflow
    ensures r.Ok? ==> r.value == Availability(regId, ListedDays(regId, findDate(regId, today + 2, today + noOfDays as int + 2), 0, slotsOn, slotSetter))
  {
    if noOfDays as int + 2 > INT32_MAX {
      return Err(ArithmeticOverflow);
    }
    var endDate := today + noOfDays as int + 2;
    var fromDate := today + 2;
    var dateList := findDate(regId, fromDate, endDate);
    var dateTimeList: seq<T> := [];
    for i := 0 to |dateList|
      invariant ListedDays(regId, dateList, 0, slotsOn, slotSetter) == dateTimeList + ListedDays(regId, dateList, i, slotsOn, slotSetter)
    {
      var entity := slotsOn(regId, dateList[i]);
      ghost var rest := ListedDays(regId, dateList, i + 1, slotsOn, slotSetter);
      if entity != [] {
        var entry := slotSetter(dateList, i, entity);
        assert ListedDays(regId, dateList, i, slotsOn, slotSetter) == [entry] + rest;
        assert dateTimeList + ([entry] + rest) == (dateTimeList + [entry]) + rest;
        dateTimeList := dateTimeList + [entry];
      } else {
        assert ListedDays(regId, dateList, i, slotsOn, slotSetter) == rest;
      }
    }
    r := Ok(Availability(regId, dateTimeList));
  }
}
