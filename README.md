# MOSIP appointment booking and client update, modelled in Dafny

This project models two pieces of the MOSIP platform and proves what they
promise.

**The pre-registration booking service** (`BookingService`) keeps three
pieces of state:

- a free-kiosk counter per appointment slot (centre, date, from-time, to-time);
- a booking record per pre-registration id, BOOKED or CANCELED;
- the applicant status held by the external pre-registration service.

Its operations change that state step by step:

- `book` takes a kiosk and writes a BOOKED record;
- `cancelBooking` cancels the record, resets the status and gives the kiosk back;
- `bookAppointment` runs a batch of book and rebook requests, gated on each applicant's status;
- `getAppointmentDetails` and `getPreIdsByRegCenterId` are the two queries;
- `addAvailability` and `getAvailability` are the two calendar loops.

**The registration client's software-update handler**
(`SoftwareUpdateHandler`) upgrades the local client:

- `executeSqlFile` applies the DB scripts of the releases after the installed one, in release order;
- each version falls back from its execution script, to its rollback script, to a restore of the DB from a backup;
- on the first failure it rolls the previous version back from its backup folder;
- `runSqlFile` splits a script into statements;
- jars are chosen, downloaded and deleted by folder and timeout rules;
- the release timestamp is read from fixed digit positions;
- `hasUpdate` compares the current and latest versions.

## Layout

- `wrappers.dfy`: `Option` and `Result`.
- `java_text.dfy`: the parts of `String`, `Integer.parseInt` and 32-bit `int` the code relies on. This covers `trim`, `isBlank`, `contains`, `startsWith`, `split` on one char, and wrap-around addition.
- `booking_model.dfy`: the booking entities as datatypes, and one step function per Java method. Each gives the new ledger and the returned value or the exception that escapes.
- `booking_service.dfy`: class `BookingLedger`, whose fields are the slot counters, booking records and statuses. Its methods are proved to do exactly what the step functions say. It also holds the module-level `GetAvailability`.
- `booking_properties.dfy`: lemmas about the step functions. They cover:
  - the status gate;
  - the rebook composition;
  - the effects of `book` and `cancelBooking`;
  - kiosk conservation, and when it fails;
  - the centre filter;
  - the date windows.
- `update_model.dfy`: the update handler's values and step functions.
- `update_handler.dfy`: class `SoftwareUpdateHandler`. Its fields record what the handler does to the world: statements sent, backups restored, the backup listing, SERVICES_VERSION_KEY, downloads and deletions. Its methods are proved against the step functions.
- `update_properties.dfy`: lemmas about version selection, the statement runner, rollback, the version loop, the timestamp fields, the timeouts and the jar rules.

Everything the code calls but does not define is a parameter: an oracle function or a value. This covers:

- `BookingServiceUtil`, `ValidationUtil`, the DAO and the REST status service;
- the clock and the UUID generator;
- the classpath, JDBC, the file system and the network.

An exception is an error outcome (`Err`, `Some(fault)` or `false`), so a
method that throws ends with what it had already changed.

Where the intended behaviour of the booking flow and its code differ, the
model follows the code:

- `cancel` answers true whenever `cancelBooking` returns, so a rebook books the new slot even when the cancel's own checks said no and it changed nothing (`BookingProperties.RebookIsCancelThenBook`).
- `book` saves the BOOKED record and sets the BOOKED status even when `isKiosksAvailable` says no. The kiosk-conservation invariant then breaks (`BookingProperties.BookWithoutKioskBreaksConservation`).
- `cancelBooking` returns the kiosk to the slot named in the request, not to the slot the record holds (`BookingProperties.CancelOfOtherSlotBreaksConservation`), and the counter has no upper bound.
- A duplicate rebook is rejected only through `isNotDuplicate`.
- A failed `book` or `cancelBooking` is not undone (no compensation).
- The "cannot be booked in current status" answer is built but never added to the response list. An ineligible item therefore adds no entry.

## Model

Each row names a member whose contract states the property, and the source lines it models.

| member | source | states |
|---|---|---|
| JavaText.AddWrap | pre-registration/pre-registration-booking-service/src/main/java/io/mosip/preregistration/booking/service/BookingService.java:348 | Java `int` addition (the kiosk counters' `- 1` and `+ 1`): the one 32-bit value congruent to the mathematical sum modulo 2^32 |
| JavaText.Trim | pre-registration/pre-registration-booking-service/src/main/java/io/mosip/preregistration/booking/service/BookingService.java:306 | `String.trim`: never longer than the input, keeps no leading or trailing char up to U+0020, and is empty exactly when every char is such a char |
| JavaText.TrimOfPadded | pre-registration/pre-registration-booking-service/src/main/java/io/mosip/preregistration/booking/service/BookingService.java:306 | trimming `pre + core + post`, with only trimmable chars around a core that starts and ends with a kept char, gives back exactly the core |
| JavaText.TrimIdempotent | pre-registration/pre-registration-booking-service/src/main/java/io/mosip/preregistration/booking/service/BookingService.java:306 | trimming a trimmed string changes nothing |
| JavaText.ContainsAt | registration/registration-services/src/main/java/io/mosip/registration/update/SoftwareUpdateHandler.java:372 | `String.contains` holds exactly when the substring occurs at some index |
| JavaText.SplitOn | registration/registration-services/src/main/java/io/mosip/registration/update/SoftwareUpdateHandler.java:689 | splitting gives at least one piece, and no piece holds the separator |
| JavaText.JoinSplit | registration/registration-services/src/main/java/io/mosip/registration/update/SoftwareUpdateHandler.java:689 | joining the pieces of a split with the separator gives the text back |
| JavaText.DropTrailingEmpty | registration/registration-services/src/main/java/io/mosip/registration/update/SoftwareUpdateHandler.java:689 | `split` drops only trailing empty pieces: the result is a prefix of the pieces, does not end in an empty piece, and everything dropped is empty |
| JavaText.ParseInt | registration/registration-services/src/main/java/io/mosip/registration/update/SoftwareUpdateHandler.java:401 | `Integer.parseInt` succeeds only on non-empty text, and a value without a leading `-` is not negative |
| JavaText.DecimalValueOfPad | registration/registration-services/src/main/java/io/mosip/registration/update/SoftwareUpdateHandler.java:544-550 | zero-padded decimal digits read back as the number they were written from |
| JavaText.ParseIntOfPad | registration/registration-services/src/main/java/io/mosip/registration/update/SoftwareUpdateHandler.java:401 | `Integer.parseInt` of zero-padded digits of a number that fits an `int` gives that number |
| BookingService.BookingLedger.Book | pre-registration/pre-registration-booking-service/src/main/java/io/mosip/preregistration/booking/service/BookingService.java:336-360 | `book` leaves the slot counters, booking records and applicant statuses, and returns the DTO or exception, that `BookSpec` gives: the kiosk is taken only when `isKiosksAvailable` holds, the BOOKED record and status are written in any case |
| BookingService.BookingLedger.CancelBooking | pre-registration/pre-registration-booking-service/src/main/java/io/mosip/preregistration/booking/service/BookingService.java:367-403 | `cancelBooking` leaves the state and answer `CancelSpec` gives: checks first, then the record becomes CANCELED, the status PENDING_APPOINTMENT and the request's slot gains a kiosk; a failed check gives the empty response |
| BookingService.BookingLedger.BookDetails | pre-registration/pre-registration-booking-service/src/main/java/io/mosip/preregistration/booking/service/BookingService.java:211 | `book` on new details that may be null: a null dereference for none, otherwise exactly `book`'s effect and answer |
| BookingService.BookingLedger.ProcessItem | pre-registration/pre-registration-booking-service/src/main/java/io/mosip/preregistration/booking/service/BookingService.java:198-226 | one request of the loop has the effect and entry of `ItemStep`: status gate, mandatory check, direct book, duplicate check, cancel then book |
| BookingService.BookingLedger.BookAppointment | pre-registration/pre-registration-booking-service/src/main/java/io/mosip/preregistration/booking/service/BookingService.java:190-236 | the whole batch ends in the state and response list of `BookAppointmentSpec`: an invalid request changes nothing, otherwise the items run in order and the first exception ends the loop with the effects of the items before it kept |
| BookingService.BookingLedger.GetAppointmentDetails | pre-registration/pre-registration-booking-service/src/main/java/io/mosip/preregistration/booking/service/BookingService.java:248-268 | the answer is a slot exactly when the id has a BOOKED record, and then it is that record's slot; otherwise a null dereference |
| BookingService.BookingLedger.GetPreIdsByRegCenterId | pre-registration/pre-registration-booking-service/src/main/java/io/mosip/preregistration/booking/service/BookingService.java:298-328 | the response repeats the centre id as given and lists, in request order, the requested ids kept by `retainAll` against the ids BOOKED at the trimmed centre id |
| BookingService.BookingLedger.AddAvailability | pre-registration/pre-registration-booking-service/src/main/java/io/mosip/preregistration/booking/service/BookingService.java:126-146 | the sync leaves the booking records and statuses alone and leaves the slot map, answer and (centre, date) pairs visited that `AddAvailabilitySpec` gives |
| BookingService.BookingLedger.SyncDates | pre-registration/pre-registration-booking-service/src/main/java/io/mosip/preregistration/booking/service/BookingService.java:133-136 | the date loop of one centre leaves the slot map, first exception and visited pairs of `SyncDays` |
| BookingService.GetAvailability | pre-registration/pre-registration-booking-service/src/main/java/io/mosip/preregistration/booking/service/BookingService.java:154-179 | an exception exactly when `noOfDays + 2` overflows an `int`; otherwise the centre id and, in order, one entry for each date `findDate` returns for the window today + 2 to today + noOfDays + 2 whose slot list is not empty |
| BookingProperties.IneligibleItemChangesNothing | pre-registration/pre-registration-booking-service/src/main/java/io/mosip/preregistration/booking/service/BookingService.java:199-224 | an item whose status is not PENDING_APPOINTMENT or EXPIRED leaves the ledger unchanged and adds no entry |
| BookingProperties.OnlyEligibleItemsChangeState | pre-registration/pre-registration-booking-service/src/main/java/io/mosip/preregistration/booking/service/BookingService.java:199-224 | an item that changes anything had status PENDING_APPOINTMENT or EXPIRED |
| BookingProperties.IneligibleBatchChangesNothing | pre-registration/pre-registration-booking-service/src/main/java/io/mosip/preregistration/booking/service/BookingService.java:198-226 | a batch of ineligible items leaves the ledger as it was and answers an empty list |
| BookingProperties.DirectBook | pre-registration/pre-registration-booking-service/src/main/java/io/mosip/preregistration/booking/service/BookingService.java:214-216 | an admitted item with no old details is exactly a `book` of the new details |
| BookingProperties.DuplicateRebookChangesNothing | pre-registration/pre-registration-booking-service/src/main/java/io/mosip/preregistration/booking/service/BookingService.java:209-213 | when `isNotDuplicate` says no, neither cancel nor book runs and no entry is added |
| BookingProperties.RebookIsCancelThenBook | pre-registration/pre-registration-booking-service/src/main/java/io/mosip/preregistration/booking/service/BookingService.java:208-216 | a rebook is `cancelBooking` of the old slot followed, whenever it returns, by `book` of the new one on the ledger the cancel left |
| BookingProperties.ItemEntryIsBooked | pre-registration/pre-registration-booking-service/src/main/java/io/mosip/preregistration/booking/service/BookingService.java:211-215 | every entry an item adds is the BOOKED answer for its id, and the id then holds a BOOKED record of the new details and the BOOKED status |
| BookingProperties.RunItemsEntries | pre-registration/pre-registration-booking-service/src/main/java/io/mosip/preregistration/booking/service/BookingService.java:198-226 | the response has at most one entry per item, each BOOKED with the booked message and for an id of the request |
| BookingProperties.BookSlotEffect | pre-registration/pre-registration-booking-service/src/main/java/io/mosip/preregistration/booking/service/BookingService.java:341-351 | `book` changes no slot but the matched one, which loses exactly one kiosk when `isKiosksAvailable` holds and is otherwise unchanged |
| BookingProperties.BookRecordEffect | pre-registration/pre-registration-booking-service/src/main/java/io/mosip/preregistration/booking/service/BookingService.java:352-359 | past the kiosk check `book` saves a BOOKED record for the id; it succeeds exactly when the status update does, then with status BOOKED and the booked message |
| BookingProperties.DetailsAfterBook | pre-registration/pre-registration-booking-service/src/main/java/io/mosip/preregistration/booking/service/BookingService.java:336-360 | after a successful `book`, `getAppointmentDetails` answers with the booked slot |
| BookingProperties.CancelEffects | pre-registration/pre-registration-booking-service/src/main/java/io/mosip/preregistration/booking/service/BookingService.java:371-396 | with both checks passing and nothing thrown, the record becomes CANCELED with the stamp, the status PENDING_APPOINTMENT, the request's slot gains one kiosk, and the answer carries the transaction id and message |
| BookingProperties.CancelCheckFailsChangesNothing | pre-registration/pre-registration-booking-service/src/main/java/io/mosip/preregistration/booking/service/BookingService.java:371-372 | a failed mandatory or status check changes nothing and answers the empty response |
| BookingProperties.CancelAnswer | pre-registration/pre-registration-booking-service/src/main/java/io/mosip/preregistration/booking/service/BookingService.java:394-395 | a transaction id is returned exactly when both checks passed; otherwise the response is empty and nothing changed |
| BookingProperties.DetailsAfterCancel | pre-registration/pre-registration-booking-service/src/main/java/io/mosip/preregistration/booking/service/BookingService.java:378-383 | after a cancel that went through, the id has no BOOKED record to show |
| BookingProperties.BookThenCancelRestoresSlots | pre-registration/pre-registration-booking-service/src/main/java/io/mosip/preregistration/booking/service/BookingService.java:348 | a `book` that took a kiosk followed by a successful `cancelBooking` of the same id and slot gives every counter back its value |
| BookingProperties.BookPreservesConservation | pre-registration/pre-registration-booking-service/src/main/java/io/mosip/preregistration/booking/service/BookingService.java:347-353 | available = total − BOOKED records per slot is kept by `book` when the kiosk check does not say no, the counter cannot wrap and the id was not booked |
| BookingProperties.BookWithoutKioskBreaksConservation | pre-registration/pre-registration-booking-service/src/main/java/io/mosip/preregistration/booking/service/BookingService.java:347-353 | a `book` whose kiosk check says no still saves a BOOKED record and breaks that invariant |
| BookingProperties.CancelPreservesConservation | pre-registration/pre-registration-booking-service/src/main/java/io/mosip/preregistration/booking/service/BookingService.java:373-392 | `cancelBooking` keeps the invariant when the status update does not throw, the request names the booked slot, and the counter cannot wrap |
| BookingProperties.CancelOfOtherSlotBreaksConservation | pre-registration/pre-registration-booking-service/src/main/java/io/mosip/preregistration/booking/service/BookingService.java:373-392 | a cancel that names a slot other than the booked one breaks the invariant at the booked slot |
| BookingProperties.RetainMembers | pre-registration/pre-registration-booking-service/src/main/java/io/mosip/preregistration/booking/service/BookingService.java:313 | `retainAll` keeps exactly the ids that are in both lists |
| BookingProperties.RetainConcat | pre-registration/pre-registration-booking-service/src/main/java/io/mosip/preregistration/booking/service/BookingService.java:313 | `retainAll` keeps order: filtering a concatenation filters each part |
| BookingProperties.RetainAllKept | pre-registration/pre-registration-booking-service/src/main/java/io/mosip/preregistration/booking/service/BookingService.java:313 | when every id is kept, `retainAll` returns the list unchanged |
| BookingProperties.BookedIdListedAtPaddedCentre | pre-registration/pre-registration-booking-service/src/main/java/io/mosip/preregistration/booking/service/BookingService.java:304-315 | a requested id with a BOOKED record at a centre is returned also when the centre id is given with surrounding blanks |
| BookingProperties.DaysMembers | pre-registration/pre-registration-booking-service/src/main/java/io/mosip/preregistration/booking/service/BookingService.java:133-134 | the dates of one centre's loop are exactly today through today + noOfDays inclusive |
| BookingProperties.DaysLength | pre-registration/pre-registration-booking-service/src/main/java/io/mosip/preregistration/booking/service/BookingService.java:133-134 | that loop has end − start + 1 dates |
| BookingProperties.SyncWindowMembers | pre-registration/pre-registration-booking-service/src/main/java/io/mosip/preregistration/booking/service/BookingService.java:131-137 | the window pairs are exactly every centre with every date of the range |
| BookingProperties.SyncWindowLength | pre-registration/pre-registration-booking-service/src/main/java/io/mosip/preregistration/booking/service/BookingService.java:131-137 | the window has (number of centres) × (number of dates) pairs |
| BookingProperties.SyncDaysVisits | pre-registration/pre-registration-booking-service/src/main/java/io/mosip/preregistration/booking/service/BookingService.java:133-136 | the date loop visits a prefix of its dates in order, all of them when nothing is thrown |
| BookingProperties.SyncCentresVisits | pre-registration/pre-registration-booking-service/src/main/java/io/mosip/preregistration/booking/service/BookingService.java:131-137 | the centre loop visits a prefix of the window in order, all of it when nothing is thrown |
| BookingProperties.AddAvailabilityVisitsWindow | pre-registration/pre-registration-booking-service/src/main/java/io/mosip/preregistration/booking/service/BookingService.java:129-143 | a sync that answers MASTER_DATA_SYNCED_SUCCESSFULLY ran `timeSlotCalculator` on every centre for every date from today to today + noOfDays |
| BookingProperties.ListedDaysEntries | pre-registration/pre-registration-booking-service/src/main/java/io/mosip/preregistration/booking/service/BookingService.java:162-169 | at most one entry per queried date, each the `slotSetter` entry of a date with slots, and one for every such date |
| UpdateProperties.HasUpdateOfSources | registration/registration-services/src/main/java/io/mosip/registration/update/SoftwareUpdateHandler.java:120-132 | no local manifest (and no version held), a manifest without a version, an unreadable server file, or equal local and server versions each answer false; a server version that differs from the current one, null included, answers true |
| UpdateHandler.SoftwareUpdateHandler.RunSqlFile | registration/registration-services/src/main/java/io/mosip/registration/update/SoftwareUpdateHandler.java:679-702 | the statements sent and the outcome are those of `RunSqlFileSpec`: the lines joined with "\n " and split on `;`, every non-blank segment sent until one is rejected; nothing else changes |
| UpdateHandler.SoftwareUpdateHandler.SendStatements | registration/registration-services/src/main/java/io/mosip/registration/update/SoftwareUpdateHandler.java:690-697 | the statement loop sends the statements and gives the outcome of `RunSegments`; nothing else changes |
| UpdateHandler.SoftwareUpdateHandler.Execute | registration/registration-services/src/main/java/io/mosip/registration/update/SoftwareUpdateHandler.java:668-677 | a missing script counts as run and sends nothing; otherwise the script's lines are run by `runSqlFile` |
| UpdateHandler.SoftwareUpdateHandler.DbRollBackSetup | registration/registration-services/src/main/java/io/mosip/registration/update/SoftwareUpdateHandler.java:728-753 | the `db` directory of the first backup whose name contains the version is copied back, if that copy completes; otherwise nothing changes |
| UpdateHandler.SoftwareUpdateHandler.ExecuteSql | registration/registration-services/src/main/java/io/mosip/registration/update/SoftwareUpdateHandler.java:626-666 | the state and outcome of `ExecuteSqlSpec`: execution script, else rollback script, else DB restore, every failure ending in the exception |
| UpdateHandler.SoftwareUpdateHandler.Rollback | registration/registration-services/src/main/java/io/mosip/registration/update/SoftwareUpdateHandler.java:755-782 | the state and the codes added are those of `RollbackSpec`: the first matching backup is restored with BACKUP_PREVIOUS_SUCCESS, otherwise one or two BACKUP_PREVIOUS_FAILURE |
| UpdateHandler.SoftwareUpdateHandler.BackUpSetup | registration/registration-services/src/main/java/io/mosip/registration/update/SoftwareUpdateHandler.java:323-361 | on success the backup listing is only the new `<version>_<stamp>Z` folder; on failure nothing changes |
| UpdateHandler.SoftwareUpdateHandler.ExecuteSqlFile | registration/registration-services/src/main/java/io/mosip/registration/update/SoftwareUpdateHandler.java:583-624 | the state and response of `ExecuteSqlFileSpec`: drop the versions up to the previous one, then the version loop |
| UpdateHandler.SoftwareUpdateHandler.ApplyMappings | registration/registration-services/src/main/java/io/mosip/registration/update/SoftwareUpdateHandler.java:599-618 | the version loop leaves the state and response of `ApplyVersions`: each version's scripts, backup and SERVICES_VERSION_KEY in order, the first failure answering SQL_EXECUTION_FAILURE and rolling back |
| UpdateHandler.SoftwareUpdateHandler.Download | registration/registration-services/src/main/java/io/mosip/registration/update/SoftwareUpdateHandler.java:392-408 | defaulted and parsed timeouts; either a NumberFormatException and no download, or exactly one download request, failing when the fetch fails; nothing else changes |
| UpdateHandler.SoftwareUpdateHandler.CheckJars | registration/registration-services/src/main/java/io/mosip/registration/update/SoftwareUpdateHandler.java:363-390 | the downloads made and the exception are those of `CheckJarsSpec`: the jar loop then the batch file for 1.2.0 versions |
| UpdateHandler.SoftwareUpdateHandler.DownloadJars | registration/registration-services/src/main/java/io/mosip/registration/update/SoftwareUpdateHandler.java:370-381 | the jar loop makes the downloads, and ends in the exception, of `CheckJarLoop` |
| UpdateHandler.SoftwareUpdateHandler.CheckJar | registration/registration-services/src/main/java/io/mosip/registration/update/SoftwareUpdateHandler.java:372-379 | one jar is downloaded exactly when it is missing or its checksum is stale |
| UpdateHandler.SoftwareUpdateHandler.DeleteJars | registration/registration-services/src/main/java/io/mosip/registration/update/SoftwareUpdateHandler.java:415-433 | the files deleted and the exception are those of `DeleteJarsSpec`: each existing jar is deleted in order, the first failed delete ending the loop |
| UpdateProperties.RemovePriorMembers | registration/registration-services/src/main/java/io/mosip/registration/update/SoftwareUpdateHandler.java:596 | `removeIf` keeps exactly the entries whose release order is above the given one |
| UpdateProperties.RemovePriorConcat | registration/registration-services/src/main/java/io/mosip/registration/update/SoftwareUpdateHandler.java:596 | `removeIf` keeps the iteration order |
| UpdateProperties.LookUpFinds | registration/registration-services/src/main/java/io/mosip/registration/update/SoftwareUpdateHandler.java:594-595 | `containsKey`/`get` find a key exactly when some entry has it, and give that entry's value |
| UpdateProperties.RemainingAfterPrevious | registration/registration-services/src/main/java/io/mosip/registration/update/SoftwareUpdateHandler.java:594-597 | when the previous version is a key, the versions left are exactly those released after it, and it is not among them |
| UpdateProperties.RemainingWithoutPrevious | registration/registration-services/src/main/java/io/mosip/registration/update/SoftwareUpdateHandler.java:594-597 | when it is not a key, every version is left |
| UpdateProperties.SqlTextConcat | registration/registration-services/src/main/java/io/mosip/registration/update/SoftwareUpdateHandler.java:686-688 | the reading loop's text of two runs of lines is the concatenation of their texts |
| UpdateProperties.RunSegmentsSentPrefix | registration/registration-services/src/main/java/io/mosip/registration/update/SoftwareUpdateHandler.java:690-697 | the statements sent are a prefix of the non-blank segments |
| UpdateProperties.RunSegmentsOk | registration/registration-services/src/main/java/io/mosip/registration/update/SoftwareUpdateHandler.java:690-697 | the script runs without an exception exactly when JDBC accepts every non-blank segment, and then every one of them was sent |
| UpdateProperties.RunSegmentsFailure | registration/registration-services/src/main/java/io/mosip/registration/update/SoftwareUpdateHandler.java:690-697 | a run that fails ends with the rejected statement, every earlier one accepted |
| UpdateProperties.SplitSegmentsHaveNoSeparator | registration/registration-services/src/main/java/io/mosip/registration/update/SoftwareUpdateHandler.java:689 | no segment of the split text contains `;` |
| UpdateProperties.SentStatementsAreStatements | registration/registration-services/src/main/java/io/mosip/registration/update/SoftwareUpdateHandler.java:689-697 | every statement sent holds no `;` and does not trim to empty |
| UpdateProperties.NonBlankMember | registration/registration-services/src/main/java/io/mosip/registration/update/SoftwareUpdateHandler.java:691 | every non-blank segment is one of the segments and does not trim to empty |
| UpdateProperties.FirstContainingFinds | registration/registration-services/src/main/java/io/mosip/registration/update/SoftwareUpdateHandler.java:763-776 | the search picks the first folder whose name contains the version, and none when no folder does |
| UpdateProperties.BackupFolderMatches | registration/registration-services/src/main/java/io/mosip/registration/update/SoftwareUpdateHandler.java:329 | the folder `backUpSetup(v)` creates is found by a search for `v` |
| UpdateProperties.RollbackOutcome | registration/registration-services/src/main/java/io/mosip/registration/update/SoftwareUpdateHandler.java:755-782 | `rollback` adds [SUCCESS], [FAILURE] or [FAILURE, FAILURE]; SUCCESS exactly when the first matching backup exists and is restored, which is exactly when the state changes |
| UpdateProperties.ExecuteSqlFrame | registration/registration-services/src/main/java/io/mosip/registration/update/SoftwareUpdateHandler.java:626-666 | `executeSQL` leaves the backup listing, restored applications and SERVICES_VERSION_KEY alone and only adds statements |
| UpdateProperties.ExecuteSqlOutcome | registration/registration-services/src/main/java/io/mosip/registration/update/SoftwareUpdateHandler.java:642-665 | `executeSQL` succeeds exactly when the execution script does; a failed execution script is followed by the rollback script's statements; when both fail, the `db` of the first backup matching `previousVersion` is copied back, and the DB is restored only then |
| UpdateProperties.MissingScriptRuns | registration/registration-services/src/main/java/io/mosip/registration/update/SoftwareUpdateHandler.java:673-675 | a script missing from the classpath counts as run and sends nothing |
| UpdateProperties.RollbackFindsNewBackup | registration/registration-services/src/main/java/io/mosip/registration/update/SoftwareUpdateHandler.java:604-613 | after a successful backup of a version and any `executeSQL`, a rollback to that version restores the backup just made |
| UpdateProperties.ApplyVersionsOutcome | registration/registration-services/src/main/java/io/mosip/registration/update/SoftwareUpdateHandler.java:599-618 | SQL_EXECUTION_SUCCESS with no errors exactly when every remaining version applies; otherwise no success and the errors SQL_EXECUTION_FAILURE followed by the rollback codes |
| UpdateProperties.ApplyVersionsFinalState | registration/registration-services/src/main/java/io/mosip/registration/update/SoftwareUpdateHandler.java:604-608 | when every version applies, SERVICES_VERSION_KEY names the last one and the backup listing holds only its backup |
| UpdateProperties.ApplyVersionsFirstApplies | registration/registration-services/src/main/java/io/mosip/registration/update/SoftwareUpdateHandler.java:603-608 | a version that applies hands the rest of the loop its backup, SERVICES_VERSION_KEY and itself as the previous version |
| UpdateProperties.ApplyVersionsFirstFails | registration/registration-services/src/main/java/io/mosip/registration/update/SoftwareUpdateHandler.java:609-614 | a version whose script fails ends the loop with SQL_EXECUTION_FAILURE and a rollback to the previous version; later versions are not run |
| UpdateProperties.NextFailureRestoresLastBackup | registration/registration-services/src/main/java/io/mosip/registration/update/SoftwareUpdateHandler.java:609-614 | a failure after an applied version rolls back to that version's backup, answering SUCCESS exactly when it is restored |
| UpdateProperties.FieldOfDigits | registration/registration-services/src/main/java/io/mosip/registration/update/SoftwareUpdateHandler.java:544-550 | a field of two or four digits reads as their decimal value |
| UpdateProperties.ReleaseTimestampOfFields | registration/registration-services/src/main/java/io/mosip/registration/update/SoftwareUpdateHandler.java:544-552 | the six fields read at their positions make the calendar fields, the month minus one |
| UpdateProperties.ReleaseTimestampOfDigits | registration/registration-services/src/main/java/io/mosip/registration/update/SoftwareUpdateHandler.java:544-552 | a timestamp starting with fourteen digits gives year, month − 1, day, hour, minute and second from chars 0-3, 4-5, 6-7, 8-9, 10-11, 12-13 |
| UpdateProperties.ReleaseTimestampTooShort | registration/registration-services/src/main/java/io/mosip/registration/update/SoftwareUpdateHandler.java:544-550 | a timestamp shorter than fourteen chars gives no fields; a missing one is a null dereference |
| UpdateProperties.DefaultTimeouts | registration/registration-services/src/main/java/io/mosip/registration/update/SoftwareUpdateHandler.java:396-397 | with no timeouts configured the download connects within 50000 ms and reads with timeout 0 |
| UpdateProperties.UnsetTimeoutIsDefault | registration/registration-services/src/main/java/io/mosip/registration/update/SoftwareUpdateHandler.java:396-397 | "null" or blank timeout text falls back to the default |
| UpdateProperties.ConfiguredTimeouts | registration/registration-services/src/main/java/io/mosip/registration/update/SoftwareUpdateHandler.java:396-401 | timeouts configured as decimal digits are the ones used |
| UpdateProperties.DigitsAreKept | registration/registration-services/src/main/java/io/mosip/registration/update/SoftwareUpdateHandler.java:396-397 | digit text is neither "null" nor blank, so it is kept as configured |
| UpdateProperties.TimeoutsFailure | registration/registration-services/src/main/java/io/mosip/registration/update/SoftwareUpdateHandler.java:401 | timeouts that do not parse fail only with a NumberFormatException |
| UpdateProperties.JarFolderRule | registration/registration-services/src/main/java/io/mosip/registration/update/SoftwareUpdateHandler.java:372 | a jar is looked for in `bin/` exactly when its name contains "mosip", otherwise in `lib/` |
| UpdateProperties.CheckJarLoopRequests | registration/registration-services/src/main/java/io/mosip/registration/update/SoftwareUpdateHandler.java:370-381 | with usable timeouts and no exception, exactly one download per jar that is missing or stale, each from the version's `lib/` URL into the jar's folder |
| UpdateProperties.CheckJarLoopBadTimeouts | registration/registration-services/src/main/java/io/mosip/registration/update/SoftwareUpdateHandler.java:370-381 | with timeouts that do not parse nothing is downloaded, and the loop throws exactly when some jar needed a download |
| UpdateProperties.CheckJarLoopTargets | registration/registration-services/src/main/java/io/mosip/registration/update/SoftwareUpdateHandler.java:400 | every file the jar loop writes is one of the listed jars, at its folder + separator + name, so its path starts with `bin/` or `lib/` |
| UpdateProperties.CheckJarsFetchesBat | registration/registration-services/src/main/java/io/mosip/registration/update/SoftwareUpdateHandler.java:383-387 | the batch file is fetched exactly when the jar loop threw nothing and the version starts with "1.2.0" |
| UpdateProperties.DeleteJarsOnlyExisting | registration/registration-services/src/main/java/io/mosip/registration/update/SoftwareUpdateHandler.java:418-430 | every path deleted is one of the jars' paths and existed |
| UpdateProperties.DeleteJarsAllExisting | registration/registration-services/src/main/java/io/mosip/registration/update/SoftwareUpdateHandler.java:418-430 | a `deleteJars` without an exception deleted every jar that existed |

## Left out

- Concurrency: the `@Transactional(REQUIRES_NEW)` units of work and the `synchronized (bookingLock)` block are not modelled. The lock is a fresh object on every call, so it excludes nothing. Every request runs as one sequential step, and nothing is claimed about races.
- Transactions: an exception does not undo what was written before it. Spring's rollback of the unit of work is not modelled, so the state after a failure is the partial one.
- `BookingExceptionCatcher.handle` is not part of this model. It is taken to re-throw, so every caught exception ends the Java method with that exception as its outcome.
- The bodies of `BookingServiceUtil`, `ValidationUtil`, `BookingDAO`, the status REST calls and `UUIDGeneratorUtil` are not part of this model. They are oracles in `Helpers`, parameters (`findDate`, `slotsOn`, `slotSetter`, `holidaysOf`, `slotCalculator`) or values (`txn`). The DAO lookups never fail (no `DataAccessLayerException`, no `TableNotAccessibleException`).
- `cancelBookingDtoSetter` is taken to copy the id and the old slot, and `isNull` to be a null test.
- Date and time parsing (`LocalDate.parse`, `LocalTime.parse`) is not modelled: slots carry the parsed values as integers. `LocalDate.now()` is one value, `today`, for the whole call.
- Booking records are keyed by pre-registration id; saving a record overwrites the earlier one, so the history of canceled rows is not kept.
- `cancelAppointment` (the request wrapper around `cancelBooking`) and the response envelopes (`MainResponseDTO`, response times, status flags) are not modelled.
- BookingService.BookingLedger.GetPreIdsByRegCenterId: `preRegIdList.retainAll(...)` (BookingService.java:313) filters the request's own list in place, and the response holds that same list. The model returns a fresh sequence, so it does not show that the request's list is changed or shared with the response.
- BookingService.GetAvailability: `slotSetter` is a function of the queried dates, the date's index and that date's slots, and its value is the one entry added. That type assumes the Java helper adds exactly one entry to `dateTimeList`, reads nothing of what the list already holds and has no other effect. `BookingProperties.ListedDaysEntries` (one entry for each queried date with slots) holds only under that assumption.
- BookingService.GetAvailability: the dates are whatever `findDate` returns for the window. That they fall inside it is up to the DAO, which is not part of this model.
- The update handler's file copying, backup-folder deletion, URL downloads, XML manifests, HMAC checksums and JDBC are oracles in `Environment` and `JarEnvironment`. `getURL`, `isCheckSumValid`, `rollBackSetup`, `getLocalManifest` and `getLatestVersion` are oracles or inputs too, as is `globalParamService.update`, which never fails here.
- `update()`, `getLatestVersion`, the manifest handling and the other public methods of `SoftwareUpdateHandler` are not modelled. `getCurrentVersion` is modelled only as `UpdateModel.CurrentVersion`, on the manifest `getLocalManifest` returns and the version held before.
- `backUpSetup` uses one timestamp text (`stamp`) for each run of the handler, and either completes or fails as a whole. A failed backup leaves the backup listing as it was.
- `setErrorResponse` and `setSuccessResponse` (in `BaseService`, not part of this model) are taken to append their code to the response's error list or to set its success code.
- The version map is the sequence of its entries in iteration order.
- UpdateHandler.SoftwareUpdateHandler.ExecuteSqlFile: `versionMappings.entrySet().removeIf(...)` (SoftwareUpdateHandler.java:596) removes the earlier releases from the caller's own map. The model takes the entries by value and filters a copy, so the caller's map is not seen to shrink.
- UpdateHandler.SoftwareUpdateHandler.DeleteJars and UpdateHandler.SoftwareUpdateHandler.CheckJars: the `fileExists` and `checksumValid` oracles do not see the handler's own deletes and downloads. A jar listed twice is deleted or downloaded twice in the model, but only once in Java, where the second `exists()` sees the first call's effect. `checkJars` is only called with a manifest's `keySet` (line 292), whose names are distinct, and the only `deleteJars` call (line 283) is commented out.
- UpdateHandler.SoftwareUpdateHandler.Download: `new URL(url)` (line 399) comes before the two `parseInt` calls. A malformed URL would throw `MalformedURLException` first, ahead of a bad timeout. URLs are not validated in the model, so with bad timeouts `UpdateModel.FetchJar` always gives `NumberFormat`.
- `Integer.parseInt` accepts ASCII digits only; the non-ASCII Unicode digits Java also accepts are not modelled.
- `Calendar` and `Timestamp` are not modelled: `getLatestVersionReleaseTimestamp` ends with the six fields handed to `calendar.set`.
- Logging is not modelled.
- QrCodePopUpViewController.java (JavaFX UI, webcam capture, a polling thread), PropertiesUtil.java (reading a properties file) and ScannerRefImplConfig.java (component-scan annotation only) are not part of this model.
