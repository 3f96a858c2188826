# Billiards venue: verified model

A four-table billiards venue is run by a Go backend, an ESP32 relay board and a
browser front end. This project models the pieces that must agree with each
other and proves that they do, or exactly when they do.

- **Lights.** `VenueCache`, `TableService` and `MqttClient` are the backend side
  (cache map, bounded command channel, publisher), `Firmware` is the board
  (debounced slots, active-low pins). `LightProtocol` joins them into a step
  system with callers caught between changing the cache and queueing their
  command, the channel, the link to the board, and the acknowledgements.
  `LightAgreement` proves agreement at rest over all runs and finds exactly when
  publishing a full snapshot is safe. `Debounce` characterises every relay write
  over any timed history, through wrap-around of the 32-bit millisecond counter.
- **Bookings.** `BookingRepository` holds the collection and its query filters,
  `BookingService` what one request decides and the methods that do it.
  `BookingConcurrency` breaks requests into their single database and lock steps
  and interleaves them; `BookingLinearizability` proves every interleaving equal
  to a sequential run that respects real time, and every run finite;
  `BookingCacheOrder` that the cache, updated late, follows the same sequential
  run; and `BookingHistory` that cancellation is final and no accepted change is
  lost.
- **Scheduler.** `Scheduler` has the timer callbacks and the reconcile pass,
  `SchedulerInvariant` what every run keeps, `LampCommands` what it queues for the
  lamps, `ReconcileAgreement` when the cache is exact (boot, a pass, two quiet
  passes, and after which requests), `TimerChain` when the timers alone suffice.
- **Time and slots.** `FreeSlots` proves the free-slot sweep exact and
  independent of input order, `SlotBooking` ties it to the service's overlap test,
  `TimeUtil` and `ClockInput` do operational days and HH:MM fields, and
  `BookingForm` the three linked fields of the booking form: when the duration
  that is sent is the one that was checked.

Classes follow the source's objects; each method is proved against a function
of the old state, and the step systems are built from those same functions. The
member in the first column is qualified by its module (and class).

## Assumptions

- Instants are whole milliseconds and zones a fixed offset. RFC 3339 text keeps
  whole seconds (`WholeSeconds`).
- In `LightProtocol` both links deliver losslessly, exactly once and in order
  across topics, no command is dropped, and a snapshot is read and published in
  one step. Section 4.6 of MQTT 3.1.1 orders messages per topic only and section
  4.3.2 lets QoS 1 duplicate them; the code drops commands when the channel is
  full (`TableService.Offered` models that) or the broker is away
  (`MqttClient.PublishRelayCommand` models that).
- Each database call is one atomic step and does not fail. `FindOne` leaves open
  which match it returns; the scheduler's methods ask for a collection without
  double bookings, where the match is unique.
- Browsers' zones are whole minutes in `BookingForm`, and a form is submitted only
  with both time fields filled, as the fields demand.
- Scheduler callbacks, reconcile passes and, in `SchedulerInvariant`, requests are
  one atomic step each, as are firmware message handling and the update loop. The
  code does not guard against races inside them.

## Where the code and its comments differ

- `backend/pkg/timeutil/time.go` says an operational day ends at 06:00; the code
  uses the configured closing time. The model follows the code.
- `backend/internal/service/booking_service.go:80-92` speaks of the current
  operational day; the code takes the window of the UTC calendar date of now.
- `backend/internal/domain/types.go` says the timeline is within its window; the
  query returns what meets it.

## Model

| member | source | states |
|---|---|---|
| LightAgreement.AgreementAtRest | backend/internal/service/table_service.go:37-69 | from agreement at rest, every run of toggles, activations, deactivations, ALL commands, publishes, snapshots safe when published, board passes and acknowledgements that rests again ends in agreement on all four tables, with no requested light still pending, even when callers reorder change and send |
| LightAgreement.SnapshotFreeRunsAreSafe | backend/internal/hardware/mqtt_client.go:107-121 | runs without a snapshot meet that condition |
| LightAgreement.SyncHealsAnyDrift | backend/internal/hardware/mqtt_client.go:262-282 | a full sync published with nothing in flight brings any relay state to agreement with no light pending at the next rest, whatever commands and safe snapshots follow it |
| LightAgreement.LastRequestWins | backend/internal/service/table_service.go:37-69 | from any state, however far relays and cache have drifted, if no other caller is between changing a table and queueing its command and no unsafe snapshot follows, the last request for the table decides: at the next rest relay and confirmed light are what it asked for |
| LightAgreement.RelayFollowsOccupancyExactly | backend/internal/service/table_service.go:37-48 | at that rest the relay is on just when the table is busy if and only if the last request was an activation or deactivation, or a toggle to what occupancy already called for |
| LightAgreement.SyncEndangersExactly | backend/internal/hardware/mqtt_client.go:210-218 | a snapshot published in a converging state can lead, with no further request or snapshot, to rest in disagreement on a table if and only if no command for it awaits publishing and the cache does not yet show what the published traffic will make it show; allowing further requests changes nothing |
| LightAgreement.StaleAckMakesSyncUnsafe | backend/internal/cache/venue_cache.go:142-155 | a concrete run, ON then OFF with the ON acknowledgement late, after which a snapshot is unsafe |
| LightAgreement.StaleSnapshotEndsApart | backend/internal/hardware/mqtt_client.go:262-282 | that run, continued by the snapshot alone, rests with relay and cache of table 1 apart |
| LightAgreement.RestIsReachable | hardware/main/main.ino:157-174 | from every state some run without any new request or snapshot comes to rest, so nothing can stay stuck, and a doomed table stays doomed along it |
| LightAgreement.FlushEmptiesSlots | hardware/main/main.ino:161-174 | a pass, 500 ms and a pass apply every pending slot, also across counter wrap-around, and shrink the work left |
| LightAgreement.RunConverges | backend/internal/hardware/mqtt_client.go:193-218 | the per-table convergence invariant is kept by every run whose snapshots are safe when published |
| LightAgreement.RunResolves | backend/internal/cache/venue_cache.go:142-196 | a requested or resolvable pending light stays resolvable through every run |
| LightProtocol.StepConverges | hardware/main/main.ino:365-387 | each protocol step keeps the invariant that what the cache will show is what the relay will be, whatever the timing |
| LightProtocol.ReceiveConverges | hardware/main/main.ino:350-387 | receiving a command, an ALL or a snapshot changes neither what the cache will show nor the relay's fate, though ALL is acknowledged before it is applied |
| LightProtocol.PassConverges | hardware/main/main.ino:157-174 | applying due slots and acknowledging the single-table ones changes neither side's fate |
| LightProtocol.DeliverConverges | backend/internal/cache/venue_cache.go:142-196 | an acknowledgement overwriting the cache changes neither side's fate |
| LightProtocol.PublishSettles | backend/internal/hardware/mqtt_client.go:240-260 | a published command settles what cache and relay of each of its tables will come to, whatever snapshots or slots lie before it |
| LightProtocol.PublishConverges | backend/internal/hardware/mqtt_client.go:107-121 | publishing the head of the channel keeps the invariant for every table |
| Debounce.WriteIsLatestCommand | hardware/main/main.ino:126-174 | over any history, a pass writes a relay if and only if the latest command for the table (single or ALL) has been outstanding for 500 ms on the counter, as it has in any pass from 500 ms up to 2^32 ms after it; the write carries that command, comes at least 500 real ms after it, and acknowledges its id unless it was an ALL; an event that does not write acknowledges nothing for the table |
| Debounce.BurstWritesOnce | hardware/main/main.ino:126-134 | a burst of commands closer than 500 ms gives one write, of the last command, and over the whole history from its start one acknowledgement for the table, under the last id, or none if the last command was an ALL |
| Debounce.SlotHoldsOutstanding | hardware/main/main.ino:126-144 | a slot is pending exactly while some command is outstanding, and holds it |
| Debounce.ElapsedIsReal | hardware/main/main.ino:162 | 500 ms on the wrapping counter are at least 500 ms of real time |
| Firmware.MillisWraps | hardware/main/main.ino:162 | the counter counts milliseconds and wraps at 2^32 |
| Firmware.CommandIdsFit | backend/internal/service/table_service.go:107-111 | the command ids the service makes for the next thirty thousand years arrive on the board whole |
| Firmware.IdIsKept | hardware/main/main.ino:126-134 | ids of up to 39 characters are kept, longer ones cut to 39 |
| Firmware.Hardware.constructor | hardware/main/main.ino:102-118 | power-up leaves every relay off and nothing queued |
| Firmware.Hardware.SetImmediate | hardware/main/main.ino:120-124 | writes one pin, ignoring tables outside 1 to 4, and leaves slots alone |
| Firmware.Hardware.QueueState | hardware/main/main.ino:126-134 | overwrites one slot with state, truncated id and time |
| Firmware.Hardware.QueueStateAll | hardware/main/main.ino:136-144 | overwrites all four slots, without an id |
| Firmware.Hardware.Update | hardware/main/main.ino:157-174 | applies exactly the due slots and returns their acknowledgements in table order |
| Firmware.Hardware.OnData | hardware/main/main.ino:337-388 | state and answers after a command, an ALL or a snapshot |
| Firmware.AnswersExactly | hardware/main/main.ino:350-387 | a snapshot is answered by its acknowledgement, an ALL at once under its own id and state, a single-table command not yet; commands switch no relay when they arrive |
| Firmware.Synced | hardware/main/main.ino:350-356 | a snapshot writes exactly its tables' pins and leaves slots pending |
| VenueCache.VenueCache.constructor | backend/internal/cache/venue_cache.go:24-40 | all four tables start available and pending off |
| VenueCache.VenueCache.GetAll | backend/internal/cache/venue_cache.go:51-59 | the four table states in table order |
| VenueCache.VenueCache.HydrateTable | backend/internal/cache/venue_cache.go:65-79 | the whole new map after hydrating one table |
| VenueCache.VenueCache.ActivateTable | backend/internal/cache/venue_cache.go:84-94 | the whole new map after activation |
| VenueCache.VenueCache.DeactivateTable | backend/internal/cache/venue_cache.go:97-107 | the whole new map after deactivation |
| VenueCache.VenueCache.SetLightStatus | backend/internal/cache/venue_cache.go:110-122 | only the light of one table becomes pending |
| VenueCache.VenueCache.SetAllLightStatuses | backend/internal/cache/venue_cache.go:125-139 | only the lights of tables 1 to 4 become pending |
| VenueCache.VenueCache.ConfirmLightStatus | backend/internal/cache/venue_cache.go:142-155 | the light becomes the acknowledged state whatever it showed |
| VenueCache.VenueCache.ConfirmAllLightStatuses | backend/internal/cache/venue_cache.go:158-174 | all four lights become the acknowledged state |
| VenueCache.VenueCache.ConfirmFullSync | backend/internal/cache/venue_cache.go:177-196 | every pending light of the map is resolved in its own direction, no other changes |
| VenueCache.VenueCache.UpdateCurrentBooking | backend/internal/cache/venue_cache.go:199-210 | the booking of an occupied table is replaced, ids not compared |
| VenueCache.OverrideExactly | backend/internal/cache/venue_cache.go:110-139 | an override marks the lights of its tables pending in its direction and changes nothing else; ALL means tables 1 to 4 |
| VenueCache.ConfirmExactly | backend/internal/cache/venue_cache.go:142-174 | an acknowledgement makes the lights of its tables final in its direction and changes nothing else |
| VenueCache.FullConfirmExactly | backend/internal/cache/venue_cache.go:177-196 | a snapshot acknowledgement makes exactly the pending lights final, each in its own direction |
| Domain.ShowsOwnFields | backend/internal/scheduler/scheduler.go:170-182 | what the cache shows of a booking is its own fields, instants to the whole second |
| TableService.TableService.ActivateTable | backend/internal/service/table_service.go:37-41 | cache activated, then ON offered to the channel |
| TableService.TableService.DeactivateTable | backend/internal/service/table_service.go:44-48 | cache deactivated, then OFF offered |
| TableService.TableService.SetLightStatus | backend/internal/service/table_service.go:51-69 | one or all lights overridden, then the command offered |
| TableService.TableService.ConfirmLightStatus | backend/internal/service/table_service.go:79-85 | table 0 confirms all four, another table itself |
| TableService.TableService.SendMqttCommand | backend/internal/service/table_service.go:106-117 | queues at the end, or drops when sixteen commands wait |
| TableService.OfferedIsQueue | backend/internal/service/table_service.go:106-117 | a command joins behind all that wait while fewer than sixteen do, and is dropped otherwise |
| LightProtocol.SendIsOffered | backend/internal/service/table_service.go:106-117 | the step system queues a command as the table service does |
| LightProtocol.RequestAndSend | backend/internal/service/table_service.go:37-69 | a request followed by its send is what the table service does in one go: cache changed, command offered |
| LightProtocol.RequestMarksPending | backend/internal/cache/venue_cache.go:84-139 | a request marks its lights pending in the direction it asks for |
| MqttClient.MqttClient.PublishRelayCommand | backend/internal/hardware/mqtt_client.go:240-260 | publishes the command, or drops it while disconnected |
| MqttClient.MqttClient.Connect | backend/internal/hardware/mqtt_client.go:155-179 | reaching the broker at once publishes a snapshot, failing to reach it publishes nothing |
| MqttClient.MqttClient.LoseConnection | backend/internal/hardware/mqtt_client.go:69-71 | a lost connection publishes nothing by itself; commands are dropped from then on |
| MqttClient.MqttClient.DrainCommands | backend/internal/hardware/mqtt_client.go:107-121 | the command loop publishes everything queued, in order |
| MqttClient.MqttClient.PublishFullStateSync | backend/internal/hardware/mqtt_client.go:262-282 | the snapshot shows ON exactly for lights ON or pending ON |
| MqttClient.MqttClient.HandleMessage | backend/internal/hardware/mqtt_client.go:181-238 | an acknowledgement updates the cache only, a sync request publishes only |
| BookingLinearizability.ConcurrentRequestsAreSequential | backend/internal/service/booking_service.go:68-299 | every interleaving of create, update and cancel leaves no double booking and the database of a sequential run of the same requests: it runs each answered request exactly once, with the answer given and under a clock and configuration one of its own steps read, and nothing that no thread requested |
| BookingLinearizability.StepDecidesAtomically | backend/internal/service/booking_service.go:174-239 | a step either decides its request as running it alone right now would, including the refusals, or changes no document |
| BookingLinearizability.AnsweredBeforeComesFirst | backend/internal/service/booking_service.go:54-63 | a request answered before another begins has its one entry before the other's in the sequential run |
| BookingLinearizability.RunsAreBounded | backend/internal/service/booking_service.go:174-299 | every run makes at most seven moves a request |
| BookingLinearizability.StuckMeansAnswered | backend/internal/service/booking_service.go:184-186 | a run that cannot go on has answered every request |
| BookingCacheOrder.CacheFollowsSequentialRun | backend/internal/service/booking_service.go:122-135 | in every interleaving, wherever no cache update of a table is outstanding, the cache shows of it what the sequential run of the requests made shows that updates the cache along with the database, each request at the clock its own update read |
| BookingCacheOrder.TimeElsewhere | backend/internal/service/booking_service.go:241-254 | when a request updates the cache is of no account to tables it did not write |
| BookingLinearizability.SomeRequestCanMove | backend/internal/service/booking_service.go:184-186 | no deadlock among the per-table mutexes |
| BookingConcurrency.StepIsConsistent | backend/internal/service/booking_service.go:69-117 | mutual exclusion, no double booking and each thread's local knowledge are kept by every step |
| BookingConcurrency.DecisionIsPerTable | backend/internal/repository/booking_repo.go:222-240 | a decision depends only on the documents of the request's own table |
| BookingConcurrency.WriteIsAtomicEffect | backend/internal/service/booking_service.go:236-239 | the single write of a checked request equals running the whole request atomically at that moment |
| BookingHistory.CancelledIsFinal | backend/internal/service/booking_service.go:276-284 | in every interleaving a cancelled booking is never revived or changed, and no booking vanishes or changes table, creator or creation time |
| BookingHistory.CancelledExactly | backend/internal/service/booking_service.go:263-299 | in every interleaving a booking ends cancelled if and only if it was so from the start or some cancel of it was accepted |
| BookingHistory.DurationsStayMatched | backend/internal/service/booking_service.go:219-222 | in every interleaving each stored duration stays the length of its window to the nearest minute |
| BookingHistory.NoPatchIsLost | backend/internal/service/booking_service.go:188-239 | in every interleaving each field holds what the last accepted PATCH setting it asked for; if none did, what its create in the run asked for, or its original value |
| BookingHistory.LatestPatchWins | backend/internal/repository/booking_repo.go:126-137 | whole-document saves never undo an earlier accepted PATCH of another field |
| BookingService.CreateAcceptedExactly | backend/internal/service/booking_service.go:73-101 | a create is accepted if and only if times are readable and half a minute apart, staff stay after the window start or now, and the window is clear of the table's active bookings |
| BookingService.UpdateAcceptedExactly | backend/internal/service/booking_service.go:189-218 | an update is accepted if and only if its booking exists uncancelled, its times are readable, and the resulting window is non-empty and clear of the others |
| BookingService.CreateStoresRequest | backend/internal/service/booking_service.go:103-119 | an accepted create stores table, name, mobile, both instants, amount, paid flag, creator and creation time as asked, active, under a new id, and touches no other document |
| BookingService.CreateRefusedExactly | backend/internal/service/booking_service.go:73-101 | a refused create answers 400 for bad times or reaching too far back, and 409 for a clash |
| BookingService.UpdateRefusedExactly | backend/internal/service/booking_service.go:189-218 | a refused update answers 404 for an absent or cancelled booking, then 400 for bad times, then 409 for a clash |
| BookingService.CancelExactly | backend/internal/service/booking_service.go:276-284 | a cancel is accepted exactly for an uncancelled booking and changes nothing but its status, and is answered 404 otherwise |
| BookingService.DecisionKeepsNoDoubleBooking | backend/internal/service/booking_service.go:94-119 | every accepted request keeps bookings non-empty and disjoint per table |
| BookingService.RoundedIsNearest | backend/internal/service/booking_service.go:325-328 | the stored duration is the nearest whole minute, and positive from half a minute on |
| BookingService.BookingService.CreateBooking | backend/internal/service/booking_service.go:68-139 | database, answer, cache and channel after a create |
| BookingService.BookingService.UpdateBooking | backend/internal/service/booking_service.go:188-258 | database, answer, cache and channel after an update |
| BookingService.BookingService.CancelBooking | backend/internal/service/booking_service.go:276-299 | database, answer, cache and channel after a cancel |
| BookingRepository.BookingRepository.Create | backend/internal/repository/booking_repo.go:92-107 | one new document under an id not used before |
| BookingRepository.BookingRepository.Save | backend/internal/repository/booking_repo.go:126-137 | replaces an existing document, never inserts |
| BookingRepository.BookingRepository.FindOverlap | backend/internal/repository/booking_repo.go:222-240 | finds an overlap exactly when the filter matches some document |
| BookingRepository.OverlapIsSharedInstant | backend/internal/repository/booking_repo.go:222-240 | the overlap filter matches if and only if some other booking is in play on the table at some instant of the window |
| BookingRepository.TimelineIsTheDay | backend/internal/repository/booking_repo.go:139-160 | a timeline holds exactly the bookings in play at some instant of its window |
| BookingRepository.BookingRepository.FindCurrentForTable | backend/internal/repository/booking_repo.go:162-179 | the one booking in play, or none |
| BookingRepository.BookingRepository.FindNextUpcoming | backend/internal/repository/booking_repo.go:181-198 | the earliest booking strictly after an instant, or none |
| BookingRepository.CurrentIsUnique | backend/internal/repository/booking_repo.go:162-170 | without double bookings at most one booking is in play |
| SchedulerInvariant.CacheStaysFaithful | backend/internal/scheduler/scheduler.go:151-256 | in every run without a PATCH that moves a shown booking off the present, a busy table with its shown check-out ahead shows a booking the database has on that table, uncancelled, checked in, with the same fields |
| SchedulerInvariant.RequestBreaksCacheExactly | backend/internal/service/booking_service.go:241-254 | a request breaks that invariant if and only if it is such a PATCH |
| ReconcileAgreement.PatchOffPresentBreaks | backend/internal/service/booking_service.go:241-254 | a concrete PATCH that moves the booking shown off the present and breaks both the invariant and the occupancy of its table |
| SchedulerInvariant.TimersStaySound | backend/internal/scheduler/scheduler.go:54-77 | in every run at most one timer is pending per table and each names a booking of its own table |
| SchedulerInvariant.StartFiredShowsReal | backend/internal/scheduler/scheduler.go:151-186 | a start callback never makes a table show another table's booking although it does not check |
| SchedulerInvariant.UpdateNeverSwapsBookings | backend/internal/cache/venue_cache.go:199-210 | an update never replaces a running booking in the cache by a different one |
| SchedulerInvariant.UpdateChangesBookingOnly | backend/internal/cache/venue_cache.go:199-210 | an update changes no light and no status and sends no command |
| SchedulerInvariant.ReconcileIsPerTable | backend/internal/scheduler/scheduler.go:217-256 | the pass gives each table what its own state, the database and the clock give it, whatever the others hold |
| LampCommands.EveryChangeIsCommanded | backend/internal/service/table_service.go:37-69 | every request, callback, pass and toggle commands what it does to a lamp while the channel has room: it leaves light and occupancy of a table alone, or the light is pending and the last command queued for the table asks for just that, ON when the table became busy and OFF when it became free |
| LampCommands.ChannelStaysInAgreement | backend/internal/service/table_service.go:106-117 | in every run with room on the channel the last command waiting for a table asks for what the cache shows |
| LampCommands.FullChannelLosesCommand | backend/internal/service/table_service.go:112-116 | on a full channel a toggle leaves its light pending and its command is lost |
| ReconcileAgreement.PassIsExactly | backend/internal/scheduler/scheduler.go:226-256 | one pass leaves a table showing the database's live booking if and only if it does not take off an expired one while another is in play |
| ReconcileAgreement.SecondPassIsExact | backend/internal/scheduler/scheduler.go:217-256 | after the second of two passes with no boundary of a table between them, whatever callbacks fire in between, its status and booking are the database's if and only if it does not still show a booking of which only the fraction of a second dropped from the check-out text is left; then it shows none |
| ReconcileAgreement.SecondPassIsExactOnWholeSeconds | backend/internal/scheduler/scheduler.go:217-256 | with no booking in such a last fraction, status and booking after the second pass are the database's |
| ReconcileAgreement.FractionEndsTooEarly | backend/internal/scheduler/scheduler.go:226-234 | a concrete check-out at half a second that the second pass takes off 300 ms early |
| ReconcileAgreement.RequestKeepsOccupancyExactly | backend/internal/service/booking_service.go:122-135 | from a cache that is exact on every table, a request leaves it exact at once if and only if it is not an accepted PATCH that moves a booking onto or off the present |
| ReconcileAgreement.HydrationIsExact | backend/cmd/server/main.go:247-267 | boot hydration gives every table exactly the booking in play, in any query order |
| ReconcileAgreement.HydrateCache | backend/cmd/server/main.go:253-265 | the whole cache after the hydration loop |
| ReconcileAgreement.BootIsFaithful | backend/cmd/server/main.go:118-129 | hydration and, later, timer initialisation establish the invariant of all runs, and a table is exact if and only if its booking in play is the same at both instants |
| ReconcileAgreement.LateBrokerMissesCheckIn | backend/cmd/server/main.go:118-129 | a concrete check-in between the two instants that leaves the table available |
| TimerChain.ChainIsExactIff | backend/internal/scheduler/scheduler.go:109-213 | on a fixed database the timers alone keep a table exact at every later instant if and only if no two bookings ahead are back to back |
| TimerChain.BackToBackMisses | backend/internal/scheduler/scheduler.go:190-213 | a concrete venue on track with two bookings back to back that the timers get wrong |
| TimerChain.FiresOncePerBoundary | backend/internal/scheduler/scheduler.go:188-213 | without back-to-back bookings the timers fire once per remaining check-in and check-out, in order, and end |
| TimerChain.FiringProgresses | backend/internal/scheduler/scheduler.go:128-145 | each firing is at a later boundary and leaves strictly fewer |
| TimerChain.ReschedulingStartsTheChain | backend/internal/scheduler/scheduler.go:54-77 | rescheduling a correctly hydrated table puts its chain on track |
| TimerChain.BootStartsTheChain | backend/internal/scheduler/scheduler.go:43-50 | boot arms on every table the timer the database calls for, and its chain is on track if and only if the booking in play is still the one at hydration |
| TimerChain.StartFiredArms | backend/internal/scheduler/scheduler.go:151-186 | whatever its booking has become, cancelled, moved or due, a start callback leaves the table with the timer the database calls for |
| TimerChain.StartFiredOccupies | backend/internal/scheduler/scheduler.go:151-186 | a start callback makes the table show its booking if that is in play, and otherwise changes neither cache nor channel |
| TimerChain.EndFiredExactly | backend/internal/scheduler/scheduler.go:188-213 | an end callback frees the table if and only if it shows the timer's own booking, and arms the next check-in in any case |
| TimerChain.PassRestartsTheChain | backend/internal/scheduler/scheduler.go:217-256 | a pass over all tables that changes who occupies one puts its chain on track if and only if its occupancy is then right, and otherwise a second pass does |
| TimerChain.PassIsPerTable | backend/internal/scheduler/scheduler.go:217-256 | the pass does to a table and its timers what it would do to that table alone |
| TimerChain.QuietPassKeepsTable | backend/internal/scheduler/scheduler.go:217-256 | a pass that does not change who occupies a table leaves its state and timers alone |
| TimerChain.EndFiringFreesTable | backend/internal/scheduler/scheduler.go:190-213 | a check-out frees the table, which is wrong exactly when another booking begins then |
| Scheduler.Scheduler.RescheduleTable | backend/internal/scheduler/scheduler.go:54-77 | both timers cleared, then the end timer of the booking in play or the start timer of the next |
| Scheduler.Scheduler.HandleStartFired | backend/internal/scheduler/scheduler.go:151-186 | the whole venue state after a start callback |
| Scheduler.Scheduler.HandleEndFired | backend/internal/scheduler/scheduler.go:190-213 | the whole venue state after an end callback |
| Scheduler.Scheduler.Reconcile | backend/internal/scheduler/scheduler.go:217-256 | the whole venue state after a reconcile pass |
| Scheduler.Scheduler.InitAll | backend/internal/scheduler/scheduler.go:43-50 | all four tables rescheduled in order |
| FreeSlots.FreeSlotsAreExact | frontend/src/components/timeline/TimelineRow.jsx:6-50 | slots are ordered, disjoint, at least 15 minutes, start at or after open and now, and meet no booking; an interval of at least 15 minutes lies in one if and only if it starts after both, meets no booking, and ends by closing or by the start of some booking |
| FreeSlots.OfferedByTheClock | frontend/src/components/timeline/TimelineRow.jsx:6-15 | an interval of a quarter of an hour or more lies in an offered slot if and only if it starts after now and after the opening hour of the business day that holds today, meets no booking, and ends by the closing hour on that day's clock or by some booking's start |
| FreeSlots.CoveredOnce | frontend/src/components/timeline/TimelineRow.jsx:35-47 | a covered interval lies in one slot only |
| FreeSlots.FreeSlotsIgnoreOrder | frontend/src/components/timeline/TimelineRow.jsx:32-33 | any permutation of the bookings and any tie order give the same slots |
| FreeSlots.SlotsPastClosingExactly | frontend/src/components/timeline/TimelineRow.jsx:35-47 | a slot runs past closing time if and only if a long enough bookable stretch crosses closing and ends at a booking's start |
| FreeSlots.SlotPastClosing | frontend/src/components/timeline/TimelineRow.jsx:35-41 | a concrete row with a slot past closing time |
| FreeSlots.CalculateFreeSlots | frontend/src/components/timeline/TimelineRow.jsx:6-50 | the sweep loop computes the specified slots |
| FreeSlots.SortIsSorted | frontend/src/components/timeline/TimelineRow.jsx:33 | the sort orders by start and loses or invents no booking |
| SlotBooking.OfferedIntervalIsBookable | backend/internal/repository/booking_repo.go:139-160 | any interval inside an offered slot and the operational day passes the overlap test on the whole database |
| SlotBooking.BookableIsOffered | backend/internal/repository/booking_repo.go:222-240 | inside the operational day, from opening and now to closing, an interval of a quarter of an hour or more passes the overlap test on the whole database if and only if it lies in an offered slot |
| TimeUtil.TodayWindow | backend/pkg/timeutil/time.go:79-139 | today's window ends after now, starts after now exactly when the venue is shut, and is the only window holding now when days do not overlap |
| TimeUtil.DayWindowsMeet | backend/pkg/timeutil/time.go:115-120 | two day windows share an instant if and only if they are consecutive and closing is later than opening |
| ClockInput.WindowByTheClock | backend/pkg/timeutil/time.go:100-120 | by the venue's clock the window opens on its day at the configured opening time, 09:00 by default, and closes the next day at the configured closing time, 06:00 by default |
| TimeUtil.UtcDateExactly | backend/internal/service/booking_service.go:80-92 | the date taken for staff is the UTC calendar date of now |
| ClockInput.DurationRoundTrip | frontend/src/components/timeline/CreateBookingModal.jsx:163-170 | writing check-in and check-out as HH:MM and reading them back recovers the duration if and only if it is from 0 to under 24 hours |
| ClockInput.ReadBack | frontend/src/components/timeline/CreateBookingModal.jsx:74-93 | reading a written time gives the instant of the business day showing it, the same minute when it lies in that day |
| ClockInput.WriteBack | frontend/src/components/timeline/CreateBookingModal.jsx:74-93 | writing what a time field was read as gives the same text, and it was read as an instant of the business day |
| ClockInput.EastIsLater | frontend/src/components/timeline/CreateBookingModal.jsx:74-79 | midnight UTC is written 08:30 in a zone eight and a half hours east |
| BookingForm.SubmittedIsValidatedExactly | frontend/src/components/timeline/CreateBookingModal.jsx:155-230 | after any edits of the form the duration sent equals the one checked if and only if the duration field is from a minute to under a day, and in an unedited form the minutes between the times shown, or is 0 while the two texts are an hour apart |
| BookingForm.FirstEditCouples | frontend/src/components/timeline/CreateBookingModal.jsx:95-153 | the first edit makes a positive duration what the times show, up to whole days, whatever the form was opened on |
| BookingForm.EditKeepsCoupled | frontend/src/components/timeline/CreateBookingModal.jsx:95-153 | each edit of check-in, check-out or duration keeps a positive duration what the times show, up to whole days |
| BookingForm.EditTakesEffect | frontend/src/components/timeline/CreateBookingModal.jsx:95-153 | what is typed into a field is what it holds, and nothing else changes but the field that follows from it |
| BookingForm.EmptiedCheckIn | frontend/src/components/timeline/CreateBookingModal.jsx:83-109 | an emptied check-in counts as the epoch, and check-out moves there |
| BookingForm.TypedCheckOutDecides | frontend/src/components/timeline/CreateBookingModal.jsx:132-153 | a typed check-out makes the duration the minutes from the check-in shown |
| BookingForm.LongDurationParts | frontend/src/components/timeline/CreateBookingModal.jsx:216-227 | twenty-five hours typed are checked as one hour and sent as twenty-five |
| BookingForm.ZeroDurationParts | frontend/src/components/timeline/CreateBookingModal.jsx:111-130 | a typed 0 leaves two hours shown and checked, and is sent as one |
| BookingForm.OddDurationParts | frontend/src/components/timeline/CreateBookingModal.jsx:44-62 | a booking of 29 minutes 36 seconds opens as 29 minutes checked and 30 sent |
| BookingForm.CreateBookingModal.constructor | frontend/src/components/timeline/CreateBookingModal.jsx:40-70 | the form opened on a booking or a slot |
| BookingForm.CreateBookingModal.HandleCheckInChange | frontend/src/components/timeline/CreateBookingModal.jsx:95-109 | check-out follows a positive duration, also from an emptied field |
| BookingForm.CreateBookingModal.HandleDurationChange | frontend/src/components/timeline/CreateBookingModal.jsx:111-130 | check-out follows a positive duration if check-in is filled |
| BookingForm.CreateBookingModal.HandleCheckOutChange | frontend/src/components/timeline/CreateBookingModal.jsx:132-153 | the duration follows, across midnight |
| ClockInput.StartOfDayHoldsBase | frontend/src/components/timeline/timelineUtils.js:28-35 | the business day found for an instant starts at the opening hour and holds it |

## Left out

- AgreementAtRest: holds for lossless, exactly-once, in-order links and no dropped command; loss, duplication and reordering across topics are not modelled.
- LastRequestWins: on the same links as AgreementAtRest.
- EveryChangeIsCommanded: asks for room on the channel; `FullChannelLosesCommand` shows what happens without.
- SyncHealsAnyDrift: a snapshot is read and published in one step; the code does not hold a lock across the two.
- CreateBooking: `time.Now` is a parameter and amounts are reals; sub-millisecond parts of request times, which MongoDB cuts off, are not modelled.
- UpdateBooking: the sequential method starts at the re-fetch under the mutex; the pre-fetch and the mutexes are steps of `BookingConcurrency`.
- FreeSlotsAreExact: asks for non-negative durations, which every booking of the service has.
- ReadBack: is about filled time fields; `BookingForm` reads an empty one as instant 0.
- Amounts, names and the overlap check of the booking form.
- MongoDB, MQTT, Firebase, Fiber and JSON: replaced by maps, queues and typed messages; their errors do not occur.
- WebSocket hub, cache broadcasts and timeline updates: sends may be dropped or reordered, so no agreement would be true.
- Role and user management, configuration handlers, authentication, logging: no deep property.
- Races inside one scheduler callback or between the firmware's message task and its main loop: the code does not guard them, so the bodies are atomic steps.
- Daylight saving, calendar formatting and date parsing: days are numbers and offsets fixed.
- WiFi, network indicator, health report, device reconnects, rendering and the create-mode slot checks of the booking form.
