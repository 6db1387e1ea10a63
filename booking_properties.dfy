/**
 * What the booking service promises, stated over the step functions of
 * `BookingModel` (and so, through the `ensures` of `BookingService`, over
 * the methods of the class): which items reach `cancel` and `book`, what
 * each of those changes, the cancel-then-book composition of a rebook, the
 * kiosk-conservation invariant and the assumptions it needs, the centre
 * filter, and the date windows of the availability loops.
 */
module BookingProperties {
  import opened Wrappers
  import opened JavaText
  import opened BookingModel

  // ---------------------------------------------------------------------
  // Status gate of bookAppointment
  // ---------------------------------------------------------------------

  /** An item whose status is neither PENDING_APPOINTMENT nor EXPIRED changes nothing and adds no entry. */
  lemma IneligibleItemChangesNothing(s: Ledger, h: Helpers, item: BookingRequest, now: int, txn: string)
    requires item.preRegistrationId in s.statuses && !MayBook(s.statuses[item.preRegistrationId])
    ensures ItemStep(s, h, item, now, txn) == (s, Ok(None))
  {
  }

  /** Only an item whose fetched status is PENDING_APPOINTMENT or EXPIRED can change the ledger. */
  lemma OnlyEligibleItemsChangeState(s: Ledger, h: Helpers, item: BookingRequest, now: int, txn: string)
    requires ItemStep(s, h, item, now, txn).0 != s
    ensures item.preRegistrationId in s.statuses && MayBook(s.statuses[item.preRegistrationId])
  {
  }

  /** A batch of ineligible items leaves the ledger as it was and answers with an empty list. */
  lemma {:induction false} IneligibleBatchChangesNothing(s: Ledger, h: Helpers, items: seq<BookingRequest>, now: int, txn: string)
    requires forall i :: 0 <= i < |items| ==> items[i].preRegistrationId in s.statuses
    requires forall i :: 0 <= i < |items| ==> !MayBook(s.statuses[items[i].preRegistrationId])
    ensures RunItems(s, h, items, now, txn) == (s, Ok([]))
    decreases |items|
  {
    if items != [] {
      IneligibleItemChangesNothing(s, h, items[0], now, txn);
      IneligibleBatchChangesNothing(s, h, items[1..], now, txn);
      PrependEntriesNothing(RunItems(s, h, items[1..], now, txn));
    }
  }

  // ---------------------------------------------------------------------
  // Rebook = cancel, then book
  // ---------------------------------------------------------------------

  /** An eligible item that passes the mandatory check: the gate of the rebook lemmas below. */
  predicate Admitted(s: Ledger, h: Helpers, item: BookingRequest) {
    && item.preRegistrationId in s.statuses
    && MayBook(s.statuses[item.preRegistrationId])
    && h.mandatoryParameterCheck(item.preRegistrationId, item.oldBookingDetails, item.newBookingDetails) == Yes
  }

  /** With no old details, the item is booked directly. */
  lemma DirectBook(s: Ledger, h: Helpers, item: BookingRequest, now: int, txn: string)
    requires Admitted(s, h, item) && item.oldBookingDetails.None?
    ensures ItemStep(s, h, item, now, txn) == BookNew(s, h, item.preRegistrationId, item.newBookingDetails)
  {
  }

  /** When `isNotDuplicate` says no, neither cancel nor book runs and no entry is added. */
  lemma DuplicateRebookChangesNothing(s: Ledger, h: Helpers, item: BookingRequest, now: int, txn: string)
    requires Admitted(s, h, item) && item.oldBookingDetails.Some?
    requires h.isNotDuplicate(item.oldBookingDetails.value, item.newBookingDetails) == No
    ensures ItemStep(s, h, item, now, txn) == (s, Ok(None))
  {
  }

  /**
   * A rebook cancels the old slot and then books the new one, on the ledger
   * the cancel left; since `cancel` answers true whenever `cancelBooking`
   * returns, the book runs even when the cancel's own checks said no and it
   * returned the empty response.
   */
  lemma RebookIsCancelThenBook(s: Ledger, h: Helpers, item: BookingRequest, now: int, txn: string)
    requires Admitted(s, h, item) && item.oldBookingDetails.Some?
    requires h.isNotDuplicate(item.oldBookingDetails.value, item.newBookingDetails) == Yes
    ensures var (s1, c) := CancelSpec(s, h, CancelBookingDto(item.preRegistrationId, item.oldBookingDetails.value), now, txn);
            ItemStep(s, h, item, now, txn) == if c.Ok? then BookNew(s1, h, item.preRegistrationId, item.newBookingDetails)
                                              else (s1, Err(c.error))
  {
  }

  /** Every entry an item adds is the BOOKED answer of `book` for that item's id. */
  lemma ItemEntryIsBooked(s: Ledger, h: Helpers, item: BookingRequest, now: int, txn: string)
    requires ItemStep(s, h, item, now, txn).1.Ok? && ItemStep(s, h, item, now, txn).1.value.Some?
    ensures ItemStep(s, h, item, now, txn).1.value.value == BookingStatusDto(item.preRegistrationId, Booked, BOOKED_MESSAGE)
    ensures item.newBookingDetails.Some?
    ensures var s1 := ItemStep(s, h, item, now, txn).0;
            && item.preRegistrationId in s1.bookings
            && s1.bookings[item.preRegistrationId] == BookingRecord(item.newBookingDetails.value, Booked, None)
            && item.preRegistrationId in s1.statuses && s1.statuses[item.preRegistrationId] == Booked
  {
  }

  /** The ids of a request list. */
  function RequestIds(items: seq<BookingRequest>): set<string> {
    set i | 0 <= i < |items| :: items[i].preRegistrationId
  }

  /**
   * The response of the loop has at most one entry per item; each is a BOOKED
   * answer with the booked message, for an id of the request.
   */
  lemma {:induction false} RunItemsEntries(s: Ledger, h: Helpers, items: seq<BookingRequest>, now: int, txn: string)
    requires RunItems(s, h, items, now, txn).1.Ok?
    ensures var entries := RunItems(s, h, items, now, txn).1.value;
            && |entries| <= |items|
            && forall j :: 0 <= j < |entries| ==>
                 entries[j].bookingStatus == Booked && entries[j].bookingMessage == BOOKED_MESSAGE
                 && entries[j].preRegistrationId in RequestIds(items)
    decreases |items|
  {
    if items != [] {
      var (s1, r1) := ItemStep(s, h, items[0], now, txn);
      var added := if r1.value.Some? then [r1.value.value] else [];
      if r1.value.Some? {
        ItemEntryIsBooked(s, h, items[0], now, txn);
      }
      RunItemsEntries(s1, h, items[1..], now, txn);
      var rest := RunItems(s1, h, items[1..], now, txn).1.value;
      var entries := RunItems(s, h, items, now, txn).1.value;
      assert entries == added + rest;
      assert items[0].preRegistrationId in RequestIds(items);
      forall j | 0 <= j < |rest|
        ensures rest[j].preRegistrationId in RequestIds(items)
      {
        var i :| 0 <= i < |items[1..]| && items[1..][i].preRegistrationId == rest[j].preRegistrationId;
        assert items[i + 1].preRegistrationId == rest[j].preRegistrationId;
      }
      forall j | 0 <= j < |entries|
        ensures entries[j].preRegistrationId in RequestIds(items)
      {
        if j >= |added| {
          assert entries[j] == rest[j - |added|];
        }
      }
    }
  }

  // ---------------------------------------------------------------------
  // book
  // ---------------------------------------------------------------------

  /**
   * `book` touches only the matched slot: when `isKiosksAvailable` holds it
   * takes exactly one kiosk from it (below the `int` minimum the counter
   * wraps), otherwise (a `No`, an exception from the check, or no such
   * slot) it leaves every counter alone, whatever `book` answers.
   */
  lemma BookSlotEffect(s: Ledger, h: Helpers, id: string, d: SlotKey)
    ensures var s1 := BookSpec(s, h, id, d).0;
            && s1.slots.Keys == s.slots.Keys
            && (forall k :: k in s.slots && k != d ==> s1.slots[k] == s.slots[k])
            && (d in s.slots ==>
                  if h.isKiosksAvailable(FindSlot(s, d)) == Yes
                  then s1.slots[d].availableKiosks == AddWrap(s.slots[d].availableKiosks, -1)
                  else s1.slots[d] == s.slots[d])
            && (d in s.slots && h.isKiosksAvailable(FindSlot(s, d)) == Yes && s.slots[d].availableKiosks as int > INT32_MIN
                ==> s1.slots[d].availableKiosks as int == s.slots[d].availableKiosks as int - 1)
  {
  }

  /**
   * Once past the kiosk check, `book` saves a BOOKED record for the id, with
   * or without a kiosk taken, and on success sets the status to BOOKED and
   * answers with the booked message; nothing else about other ids changes.
   */
  lemma BookRecordEffect(s: Ledger, h: Helpers, id: string, d: SlotKey)
    requires !h.isKiosksAvailable(FindSlot(s, d)).Raise?
    requires h.isKiosksAvailable(FindSlot(s, d)) == Yes ==> d in s.slots
    ensures var (s1, r) := BookSpec(s, h, id, d);
            && s1.bookings == s.bookings[id := BookingRecord(d, Booked, None)]
            && (r.Ok? <==> h.callUpdateStatus(id, Booked).None?)
            && (r.Ok? ==> r.value == BookingStatusDto(id, Booked, BOOKED_MESSAGE) && s1.statuses == s.statuses[id := Booked])
            && (r.Err? ==> r.error == h.callUpdateStatus(id, Booked).value && s1.statuses == s.statuses)
  {
  }

  /** After a successful `book`, `getAppointmentDetails` answers with the booked slot. */
  lemma DetailsAfterBook(s: Ledger, h: Helpers, id: string, d: SlotKey)
    requires BookSpec(s, h, id, d).1.Ok?
    ensures AppointmentDetails(BookSpec(s, h, id, d).0, id) == Ok(d)
  {
  }

  // ---------------------------------------------------------------------
  // cancelBooking
  // ---------------------------------------------------------------------

  /** Both checks of `cancelBooking` pass. */
  predicate CancelChecksPass(s: Ledger, h: Helpers, dto: CancelBookingDto) {
    && h.mandatoryParameterCheckforCancel(dto) == Yes
    && h.callGetStatusForCancel(dto.preRegistrationId, StatusOf(s, dto.preRegistrationId)) == Yes
  }

  /**
   * When both checks pass and nothing throws: the BOOKED record becomes
   * CANCELED with the stamp, the status becomes PENDING_APPOINTMENT, the
   * request's slot gets one kiosk back (wrapping above the `int` maximum,
   * there is no upper bound), and the answer carries the transaction id and
   * the canceled message.
   */
  lemma CancelEffects(s: Ledger, h: Helpers, dto: CancelBookingDto, now: int, txn: string)
    requires CancelChecksPass(s, h, dto)
    requires HasActiveBooking(s, dto.preRegistrationId)
    requires h.callUpdateStatus(dto.preRegistrationId, PendingAppointment).None?
    requires dto.slot in s.slots
    ensures var (s1, r) := CancelSpec(s, h, dto, now, txn);
            var id := dto.preRegistrationId;
            && r == Ok(CancelResponse(Some(txn), Some(CANCELED_MESSAGE)))
            && s1.bookings == s.bookings[id := BookingRecord(s.bookings[id].slot, Canceled, Some(now))]
            && s1.statuses == s.statuses[id := PendingAppointment]
            && s1.slots == s.slots[dto.slot := Slot(AddWrap(s.slots[dto.slot].availableKiosks, 1))]
            && (s.slots[dto.slot].availableKiosks as int < INT32_MAX ==>
                  s1.slots[dto.slot].availableKiosks as int == s.slots[dto.slot].availableKiosks as int + 1)
  {
  }

  /** If either check says no, `cancelBooking` changes nothing and answers with the empty response. */
  lemma CancelCheckFailsChangesNothing(s: Ledger, h: Helpers, dto: CancelBookingDto, now: int, txn: string)
    requires h.mandatoryParameterCheckforCancel(dto) == No
             || (h.mandatoryParameterCheckforCancel(dto) == Yes
                 && h.callGetStatusForCancel(dto.preRegistrationId, StatusOf(s, dto.preRegistrationId)) == No)
    ensures CancelSpec(s, h, dto, now, txn) == (s, Ok(EMPTY_CANCEL_RESPONSE))
  {
  }

  /** A transaction id is handed out exactly when the cancel went through to the end. */
  lemma CancelAnswer(s: Ledger, h: Helpers, dto: CancelBookingDto, now: int, txn: string)
    requires CancelSpec(s, h, dto, now, txn).1.Ok?
    ensures var r := CancelSpec(s, h, dto, now, txn).1.value;
            (r.transactionId.Some? <==> CancelChecksPass(s, h, dto))
            && (r.transactionId.None? ==> r == EMPTY_CANCEL_RESPONSE && CancelSpec(s, h, dto, now, txn).0 == s)
  {
  }

  /** After a cancel that went through, `getAppointmentDetails` finds no BOOKED record. */
  lemma DetailsAfterCancel(s: Ledger, h: Helpers, dto: CancelBookingDto, now: int, txn: string)
    requires CancelChecksPass(s, h, dto)
    requires CancelSpec(s, h, dto, now, txn).1.Ok?
    ensures AppointmentDetails(CancelSpec(s, h, dto, now, txn).0, dto.preRegistrationId) == Err(NullDereference)
  {
  }

  /**
   * A `book` that took a kiosk, followed by a `cancelBooking` of the same
   * id and slot that goes through, gives every slot counter back its value.
   */
  lemma {:induction false} BookThenCancelRestoresSlots(s: Ledger, h: Helpers, id: string, d: SlotKey, now: int, txn: string)
    requires d in s.slots && s.slots[d].availableKiosks as int > INT32_MIN
    requires h.isKiosksAvailable(FindSlot(s, d)) == Yes
    requires h.callUpdateStatus(id, Booked).None?
    requires h.mandatoryParameterCheckforCancel(CancelBookingDto(id, d)) == Yes
    requires h.callGetStatusForCancel(id, Some(Booked)) == Yes
    requires h.callUpdateStatus(id, PendingAppointment).None?
    ensures var s1 := BookSpec(s, h, id, d).0;
            var s2 := CancelSpec(s1, h, CancelBookingDto(id, d), now, txn).0;
            s2.slots == s.slots
  {
    var s1 := BookSpec(s, h, id, d).0;
    var a := s.slots[d].availableKiosks;
    assert s1.slots == s.slots[d := Slot(AddWrap(a, -1))];
    assert StatusOf(s1, id) == Some(Booked);
    assert HasActiveBooking(s1, id);
    var s2 := CancelSpec(s1, h, CancelBookingDto(id, d), now, txn).0;
    assert AddWrap(AddWrap(a, -1), 1) == a;
    assert s2.slots == s1.slots[d := Slot(a)];
  }

  // ---------------------------------------------------------------------
  // Conservation of kiosks
  // ---------------------------------------------------------------------

  /** The ids whose record is BOOKED at slot `k`. */
  function ActiveIn(b: map<string, BookingRecord>, k: SlotKey): set<string> {
    set id | id in b && b[id].statusCode == Booked && b[id].slot == k
  }

  /** Every slot counter equals its total number of kiosks minus the BOOKED records at that slot. */
  predicate Conserved(s: Ledger, total: map<SlotKey, int>) {
    forall k :: k in s.slots ==> k in total && s.slots[k].availableKiosks as int == total[k] - |ActiveIn(s.bookings, k)|
  }

  /** Writing a record for an id that has no BOOKED record adds it to the slot it is BOOKED at. */
  lemma ActiveAfterWrite(b: map<string, BookingRecord>, id: string, rec: BookingRecord, k: SlotKey)
    requires !(id in b && b[id].statusCode == Booked)
    ensures rec.statusCode == Booked && rec.slot == k ==> |ActiveIn(b[id := rec], k)| == |ActiveIn(b, k)| + 1
    ensures !(rec.statusCode == Booked && rec.slot == k) ==> ActiveIn(b[id := rec], k) == ActiveIn(b, k)
  {
    if rec.statusCode == Booked && rec.slot == k {
      assert ActiveIn(b[id := rec], k) == ActiveIn(b, k) + {id};
    }
  }

  /** Overwriting a BOOKED record by one that is not BOOKED removes the id from its slot. */
  lemma ActiveAfterCancel(b: map<string, BookingRecord>, id: string, rec: BookingRecord, k: SlotKey)
    requires id in b && b[id].statusCode == Booked && rec.statusCode != Booked
    ensures b[id].slot == k ==> |ActiveIn(b[id := rec], k)| == |ActiveIn(b, k)| - 1
    ensures b[id].slot != k ==> ActiveIn(b[id := rec], k) == ActiveIn(b, k)
  {
    if b[id].slot == k {
      assert ActiveIn(b[id := rec], k) == ActiveIn(b, k) - {id};
    }
  }

  /**
   * `book` keeps the counters conserved when the kiosk check does not say
   * no, the counter cannot wrap, and the id holds no BOOKED record yet.
   */
  lemma BookPreservesConservation(s: Ledger, h: Helpers, id: string, d: SlotKey, total: map<SlotKey, int>)
    requires Conserved(s, total)
    requires h.isKiosksAvailable(FindSlot(s, d)) != No
    requires d in s.slots ==> s.slots[d].availableKiosks as int > INT32_MIN
    requires !HasActiveBooking(s, id)
    ensures Conserved(BookSpec(s, h, id, d).0, total)
  {
    var s1 := BookSpec(s, h, id, d).0;
    if s1 != s {
      var rec := BookingRecord(d, Booked, None);
      assert s1.bookings == s.bookings[id := rec];
      forall k | k in s1.slots
        ensures k in total && s1.slots[k].availableKiosks as int == total[k] - |ActiveIn(s1.bookings, k)|
      {
        ActiveAfterWrite(s.bookings, id, rec, k);
      }
    }
  }

  /** `book` with the kiosk check saying no still saves a BOOKED record, and so breaks conservation. */
  lemma BookWithoutKioskBreaksConservation(s: Ledger, h: Helpers, id: string, d: SlotKey, total: map<SlotKey, int>)
    requires Conserved(s, total)
    requires h.isKiosksAvailable(FindSlot(s, d)) == No
    requires d in s.slots
    requires !HasActiveBooking(s, id)
    ensures !Conserved(BookSpec(s, h, id, d).0, total)
  {
    var s1 := BookSpec(s, h, id, d).0;
    ActiveAfterWrite(s.bookings, id, BookingRecord(d, Booked, None), d);
    assert s1.slots[d] == s.slots[d];
  }

  /**
   * `cancelBooking` keeps the counters conserved when the status update
   * does not throw, the request names the slot the id is booked at, and the
   * counter cannot wrap.
   */
  lemma CancelPreservesConservation(s: Ledger, h: Helpers, dto: CancelBookingDto, now: int, txn: string, total: map<SlotKey, int>)
    requires Conserved(s, total)
    requires h.callUpdateStatus(dto.preRegistrationId, PendingAppointment).None?
    requires HasActiveBooking(s, dto.preRegistrationId) ==> s.bookings[dto.preRegistrationId].slot == dto.slot
    requires dto.slot in s.slots ==> s.slots[dto.slot].availableKiosks as int < INT32_MAX
    ensures Conserved(CancelSpec(s, h, dto, now, txn).0, total)
  {
    var s1 := CancelSpec(s, h, dto, now, txn).0;
    var id := dto.preRegistrationId;
    if s1 != s {
      var rec := s.bookings[id].(statusCode := Canceled, updDate := Some(now));
      assert s1.bookings == s.bookings[id := rec];
      forall k | k in s1.slots
        ensures k in total && s1.slots[k].availableKiosks as int == total[k] - |ActiveIn(s1.bookings, k)|
      {
        ActiveAfterCancel(s.bookings, id, rec, k);
      }
    }
  }

  /**
   * `cancelBooking` releases the slot named in the request, not the one the
   * record holds: when the two differ, conservation breaks at the record's slot.
   */
  lemma CancelOfOtherSlotBreaksConservation(s: Ledger, h: Helpers, dto: CancelBookingDto, now: int, txn: string, total: map<SlotKey, int>)
    requires Conserved(s, total)
    requires CancelChecksPass(s, h, dto)
    requires HasActiveBooking(s, dto.preRegistrationId)
    requires h.callUpdateStatus(dto.preRegistrationId, PendingAppointment).None?
    requires s.bookings[dto.preRegistrationId].slot != dto.slot
    requires s.bookings[dto.preRegistrationId].slot in s.slots
    ensures !Conserved(CancelSpec(s, h, dto, now, txn).0, total)
  {
    var id := dto.preRegistrationId;
    var k0 := s.bookings[id].slot;
    var s1 := CancelSpec(s, h, dto, now, txn).0;
    var rec := s.bookings[id].(statusCode := Canceled, updDate := Some(now));
    assert s1.bookings == s.bookings[id := rec];
    ActiveAfterCancel(s.bookings, id, rec, k0);
    assert s1.slots[k0] == s.slots[k0];
  }

  // ---------------------------------------------------------------------
  // getPreIdsByRegCenterId
  // ---------------------------------------------------------------------

  /** `retainAll` keeps exactly the ids that are in `keep`. */
  lemma {:induction false} RetainMembers(ids: seq<string>, keep: set<string>, x: string)
    ensures x in Retain(ids, keep) <==> x in ids && x in keep
    decreases |ids|
  {
    if ids != [] {
      var init := ids[..|ids| - 1];
      RetainMembers(init, keep, x);
      assert ids == init + [ids[|ids| - 1]];
    }
  }

  /** `retainAll` keeps the order of the list: filtering a concatenation filters each part. */
  lemma {:induction false} RetainConcat(a: seq<string>, b: seq<string>, keep: set<string>)
    ensures Retain(a + b, keep) == Retain(a, keep) + Retain(b, keep)
    decreases |b|
  {
    if b == [] {
      assert a + b == a;
    } else {
      var init := b[..|b| - 1];
      RetainConcat(a, init, keep);
      assert (a + b)[..|a + b| - 1] == a + init;
    }
  }

  /** A list whose ids are all kept comes back unchanged, duplicates included. */
  lemma {:induction false} RetainAllKept(ids: seq<string>, keep: set<string>)
    requires forall i :: 0 <= i < |ids| ==> ids[i] in keep
    ensures Retain(ids, keep) == ids
    decreases |ids|
  {
    if ids != [] {
      RetainAllKept(ids[..|ids| - 1], keep);
    }
  }

  /**
   * A requested id with a BOOKED record at a centre is listed for that
   * centre even when the request pads the centre id with spaces or control
   * characters, since the centre id is trimmed before the lookup.
   */
  lemma BookedIdListedAtPaddedCentre(s: Ledger, ids: seq<string>, id: string, pre: string, centre: string, post: string)
    requires HasActiveBooking(s, id) && s.bookings[id].slot.registrationCenterId == centre
    requires forall k :: 0 <= k < |pre| ==> Trimmable(pre[k])
    requires forall k :: 0 <= k < |post| ==> Trimmable(post[k])
    requires centre == [] || (!Trimmable(centre[0]) && !Trimmable(centre[|centre| - 1]))
    requires id in ids
    ensures id in Retain(ids, BookedIdsAt(s, Trim(pre + centre + post)))
  {
    TrimOfPadded(pre, centre, post);
    RetainMembers(ids, BookedIdsAt(s, centre), id);
  }

  // ---------------------------------------------------------------------
  // The date windows of addAvailability and getAvailability
  // ---------------------------------------------------------------------

  /** The pairs of one centre's window are that centre with each date from `d` to `end`. */
  lemma {:induction false} DaysMembers<C>(c: C, d: int, end: int, x: (C, int))
    ensures x in Days(c, d, end) <==> x.0 == c && d <= x.1 <= end
    decreases if d <= end then end - d + 1 else 0
  {
    if d <= end {
      DaysMembers(c, d + 1, end, x);
    }
  }

  /** `addAvailability` visits every centre with every date from today to today + noOfDays, and nothing else. */
  lemma {:induction false} SyncWindowMembers<C>(centres: seq<C>, start: int, end: int, c: C, d: int)
    ensures (c, d) in SyncWindow(centres, start, end) <==> c in centres && start <= d <= end
    decreases |centres|
  {
    if centres != [] {
      DaysMembers(centres[0], start, end, (c, d));
      SyncWindowMembers(centres[1..], start, end, c, d);
      assert centres == [centres[0]] + centres[1..];
    }
  }

  /** A window holds one pair per centre and date. */
  lemma {:induction false} SyncWindowLength<C>(centres: seq<C>, start: int, end: int)
    requires start <= end + 1
    ensures |SyncWindow(centres, start, end)| == |centres| * (end - start + 1)
    decreases |centres|
  {
    if centres != [] {
      DaysLength(centres[0], start, end);
      SyncWindowLength(centres[1..], start, end);
    }
  }

  lemma {:induction false} DaysLength<C>(c: C, d: int, end: int)
    requires d <= end + 1
    ensures |Days(c, d, end)| == end - d + 1
    decreases end - d + 1
  {
    if d <= end {
      DaysLength(c, d + 1, end);
    }
  }

  /** `s` is a prefix of `t`. */
  predicate IsPrefix<X(==)>(s: seq<X>, t: seq<X>) {
    |s| <= |t| && t[..|s|] == s
  }

  /**
   * The date loop of one centre visits its dates in order: all of them when
   * no exception is thrown, otherwise a prefix ending at the failing date.
   */
  lemma {:induction false} SyncDaysVisits<C>(c: C, holidays: seq<string>, d: int, end: int, m: map<SlotKey, Slot>,
                                             slotCalculator: (C, seq<string>, int, map<SlotKey, Slot>) -> Result<map<SlotKey, Slot>, Fault>)
    ensures var (_, e, v) := SyncDays(c, holidays, d, end, m, slotCalculator);
            && IsPrefix(v, Days(c, d, end))
            && (e.None? ==> v == Days(c, d, end))
            && (e.Some? ==> v != [])
    decreases if d <= end then end - d + 1 else 0
  {
    if d <= end && slotCalculator(c, holidays, d, m).Ok? {
      SyncDaysVisits(c, holidays, d + 1, end, slotCalculator(c, holidays, d, m).value, slotCalculator);
    }
  }

  /**
   * The centre loop visits the window in order: the whole window when no
   * exception is thrown, otherwise a prefix of it.
   */
  lemma {:induction false} SyncCentresVisits<C>(centres: seq<C>, start: int, end: int, m: map<SlotKey, Slot>,
                                                holidaysOf: C -> Result<seq<string>, Fault>,
                                                slotCalculator: (C, seq<string>, int, map<SlotKey, Slot>) -> Result<map<SlotKey, Slot>, Fault>)
    ensures var (_, e, v) := SyncCentres(centres, start, end, m, holidaysOf, slotCalculator);
            && IsPrefix(v, SyncWindow(centres, start, end))
            && (e.None? ==> v == SyncWindow(centres, start, end))
    decreases |centres|
  {
    if centres != [] && holidaysOf(centres[0]).Ok? {
      var holidays := holidaysOf(centres[0]).value;
      SyncDaysVisits(centres[0], holidays, start, end, m, slotCalculator);
      var (m1, e1, v1) := SyncDays(centres[0], holidays, start, end, m, slotCalculator);
      var days := Days(centres[0], start, end);
      var rest := SyncWindow(centres[1..], start, end);
      assert SyncWindow(centres, start, end) == days + rest;
      if e1.Some? {
        assert (days + rest)[..|v1|] == days[..|v1|];
      } else {
        SyncCentresVisits(centres[1..], start, end, m1, holidaysOf, slotCalculator);
        var v2 := SyncCentres(centres[1..], start, end, m1, holidaysOf, slotCalculator).2;
        assert (days + rest)[..|v1 + v2|] == days + rest[..|v2|];
      }
    }
  }

  /** A sync that answers MASTER_DATA_SYNCED_SUCCESSFULLY visited every centre on every date of its window. */
  lemma AddAvailabilityVisitsWindow<C>(m: map<SlotKey, Slot>, today: int, noOfDays: int32, cs: seq<C>,
                                       holidaysOf: C -> Result<seq<string>, Fault>,
                                       slotCalculator: (C, seq<string>, int, map<SlotKey, Slot>) -> Result<map<SlotKey, Slot>, Fault>)
    ensures var (_, r, v) := AddAvailabilitySpec(m, today, noOfDays, Ok(cs), holidaysOf, slotCalculator);
            && IsPrefix(v, SyncWindow(cs, today, today + noOfDays as int))
            && (r.Ok? ==> r.value == SYNCED_MESSAGE && v == SyncWindow(cs, today, today + noOfDays as int))
  {
    SyncCentresVisits(cs, today, today + noOfDays as int, m, holidaysOf, slotCalculator);
  }

  /** Entry `t` is the `slotSetter` entry of the date at index `i`, which has slots. */
  ghost predicate ListedAt<R, T>(regId: string, dates: seq<int>, i: int, slotsOn: (string, int) -> seq<R>,
                           slotSetter: (seq<int>, nat, seq<R>) -> T, t: T) {
    0 <= i < |dates| && slotsOn(regId, dates[i]) != [] && t == slotSetter(dates, i, slotsOn(regId, dates[i]))
  }

  /** Entry `t` is the entry of some date at index `from` or later. */
  ghost predicate ListedFrom<R, T>(regId: string, dates: seq<int>, from: int, slotsOn: (string, int) -> seq<R>,
                                  slotSetter: (seq<int>, nat, seq<R>) -> T, t: T) {
    exists i :: from <= i && ListedAt(regId, dates, i, slotsOn, slotSetter, t)
  }

  /**
   * `getAvailability` lists at most one entry per queried date, only for
   * dates with a non-empty slot list, and one for every such date.
   */
  lemma {:induction false} ListedDaysEntries<R, T>(regId: string, dates: seq<int>, from: nat, slotsOn: (string, int) -> seq<R>,
                                                   slotSetter: (seq<int>, nat, seq<R>) -> T)
    requires from <= |dates|
    ensures var listed := ListedDays(regId, dates, from, slotsOn, slotSetter);
            && |listed| <= |dates| - from
            && (forall j :: 0 <= j < |listed| ==> ListedFrom(regId, dates, from, slotsOn, slotSetter, listed[j]))
            && (forall i :: from <= i < |dates| && slotsOn(regId, dates[i]) != [] ==>
                  slotSetter(dates, i, slotsOn(regId, dates[i])) in listed)
    decreases |dates| - from
  {
    if from < |dates| {
      ListedDaysEntries(regId, dates, from + 1, slotsOn, slotSetter);
      var rows := slotsOn(regId, dates[from]);
      var head := if rows != [] then [slotSetter(dates, from, rows)] else [];
      var rest := ListedDays(regId, dates, from + 1, slotsOn, slotSetter);
      var listed := ListedDays(regId, dates, from, slotsOn, slotSetter);
      assert listed == head + rest;
      forall j | 0 <= j < |listed|
        ensures ListedFrom(regId, dates, from, slotsOn, slotSetter, listed[j])
      {
        if j < |head| {
          assert ListedAt(regId, dates, from, slotsOn, slotSetter, listed[j]);
        } else {
          assert listed[j] == rest[j - |head|];
          assert ListedFrom(regId, dates, from + 1, slotsOn, slotSetter, rest[j - |head|]);
          var i :| from + 1 <= i && ListedAt(regId, dates, i, slotsOn, slotSetter, rest[j - |head|]);
          assert ListedAt(regId, dates, i, slotsOn, slotSetter, listed[j]);
        }
      }
    }
  }
}
