# A verified model of the TinyPanel hub's store

TinyPanel Hub keeps its users, devices, messages and to-dos in memory, saves them to one
JSON state file, and appends telemetry to a line-oriented log. This project models that
storage engine in Dafny and proves what it promises over whole runs: through failed saves,
crashes and reopenings, with requests interleaving at the granularity of the store's lock.
The weather cache is modelled as a second, independent machine.

## How the model is laid out

- `Domain`, `Text`, `Seqs`: the stored records, trimming, and the sequence vocabulary of the
  queries.
- `Todos`, `Inbox`, `BindCodes`, `Devices`: the four parts of the state as values - what each
  operation does to its list, the invariant of the list, and lemmas about both.
- `State`: the whole state, reading a state file back, and `Apply`, the effect of each
  mutating store method.
- `Effects`, `Views`: what that means, said without the functions of the model: which fields each
  operation writes and what it reports, and which entries each query shows.
- `History`: what a log of operations leaves behind when replayed from a fresh store.
- `Durability`: the run machine. Events are an operation with a save that succeeds or fails,
  the ownership check of a message request, a crash, and an opening. `DurableLinearization`
  gives every run a crash-free story; `DurablePrefixGrows` says the durable part of the story
  only ever grows.
- `Fidelity`: what was stored is what is there later - messages as sent, users as created, and
  the secret a device registered with.
- `Guarantees`: the other consequences for users of the store. `Rollback` and `Ownership`: two things
  one would expect of the store that fail, each with the exact condition under which it holds.
- `StateFiles`, `LogFile`, `Store`, `Service`, `Handlers`: the code in its own imperative form
  (classes, in-place loops, early returns), each method proved against the functions above.
  `FileStore.Did` says that memory and file after a method are those of `Apply`; `CallIsStep`
  says that this is one event of the run machine.
- `TelemetryLog`, `TelemetryViews`: line framing, the bounded window, the id counter rebuilt
  from the window, runs of the log, and the agreement of the views.
- `WeatherCache`: the cache and its interleavings.

A `hide` statement in a proof sets aside definitions that the proof does not use, mostly the
ten-way `State.Apply`; it takes facts away and never adds any.

## Assumptions

- The clock readings, the digits of the random source, the outcome of every file operation,
  the interference of other callers and the answer of the weather provider are inputs and may
  be anything; the clock may even run backwards.
- A JSON state decodes to what was encoded (`StateCodec.Lawful`); an encoded telemetry record
  is one non-empty line and decodes to the record (`RecordCodec.Lawful`). Nothing is assumed
  about how long a line is.
- A rename replaces the state file atomically. An append to the log writes a whole line or
  nothing.
- User ids are not empty, as `internal/store/users.go:39` makes them. Ids and
  versions are mathematical integers: no counter overflows.
- A hello that needs a code finds a free one; with a million devices waiting the loop in
  `internal/store/devices.go:173-180` does not end (`PairingNeverStarves`).

## Where the code differs from what one may expect

- A code that was used is reported as unknown, not as already used as `docs/message.md:162`
  says (`BindTakesTheDevice`); only an expired code is refused.
- Deleting a device keeps its messages, and a device is handed pending messages whoever sent
  them, so after being bound anew it still receives the former owner's (`PendingOutlivesOwner`).
  An operation leaves a message without its owner's device exactly if it deletes a device that
  has messages from its owner, or appends a message whose sender has lost the device since the
  check (`AllOwnedStep`, and over runs `MessagesOwnedExactly`). What always holds is that the
  sender once owned the device (`MessagesAreSourced`).
- Conflicts and other reads are answered from memory, which may be ahead of the file after a
  failed save: a reported version can roll back. It does, on a crash, exactly if an addition or
  update of that to-do has not been followed by a successful save (`ReportedVersionSurvives`;
  `ReportedVersionCanRollBack` is a run of five events in which it happens).
- The id of a message that a crash undid is given out again. If the device had already fetched
  the first message, its late acknowledgement hides the second one before it was ever fetched
  (`StaleAckHidesMessage`). An acknowledgement goes by device and id alone, and
  `SentStaysFetchable` says exactly when a message is fetchable in the presence of such ones.
- One telemetry record whose line reaches 1 MiB makes every later read of the log, and the next
  opening of the store, fail; the append itself is not checked (`ReadAfterRun` gives the exact
  condition). A request body is cut at 1 MiB (`internal/httpapi/response.go:16`), but the line
  written is not the body: the store adds its own fields, and `json.Marshal` writes each of
  `<`, `>` and `&` as a six-byte escape, so that a body of less than 200 kB can be enough.
- The cache takes an expiry that falls on Go's zero time for an empty cache
  (`ProtectedUnlessZero`). Refreshes stay a lifetime apart, whatever the next caller reads,
  exactly if the latest one did not expire there (`SpacingContinues`, `BoundFailsAtZero`).

## Model

| member | source | states |
|---|---|---|
| Durability.DurableLinearization | internal/store/state.go:38-72 | Every run of operations, failed saves, crashes and reopenings has a crash-free story: memory is the end of a log of executed operations in their order, the state file the end of a prefix of it, an executed operation is missing if and only if a crash undid it before any save covered it, and every acknowledged change is in the prefix, in order, with the reply it got |
| Durability.DurablePrefixGrows | internal/store/state.go:57-72 | Nothing acknowledged is ever lost: the durable part of the story of a shorter run starts that of every longer one |
| Durability.AdvanceState | internal/store/state.go:38-55 | One event keeps memory and file matched to the story; opening a readable file never fails |
| Guarantees.ReachableMemory | internal/store/state.go:74-92 | In every reachable memory all store invariants hold, normalizing changes nothing, each to-do is the fold of exactly the surviving updates on it with its version counting them and has the text and status last given to it, and the inbox is the window on everything sent |
| Guarantees.AckedIdsIncrease | internal/store/todos.go:33-43 | Acknowledged to-do and message ids strictly increase over any run with crashes, so none is given out twice |
| Guarantees.AckedSwapIsUnique | internal/store/todos.go:46-85 | At most one acknowledged update or deletion succeeds for a to-do id and version, over any run with crashes |
| Guarantees.FileIsLastSaved | internal/store/state.go:57-72 | The file always holds exactly the memory of the last successful save, and the invariants hold of it |
| Guarantees.ReopenRestores | internal/store/store.go:31-50 | Opening after a crash brings back exactly the memory of the last successful save, or a fresh state |
| Guarantees.SavedMemorySurvives | internal/store/state.go:57-72 | While every change to memory has been covered by a save, the whole memory is what a crash would bring back (the exact condition, to-do by to-do, is `ReportedVersionSurvives`) |
| Guarantees.SentStaysFetchable | internal/store/messages.go:90-130 | A message whose sending was acknowledged is fetchable if and only if fewer than a hundred messages followed it and no acknowledgement naming its device and id took effect since without being undone by a crash; through failed saves, crashes and reopenings |
| Fidelity.SentArrivesAsSent | internal/store/messages.go:90-130 | A message whose sending was acknowledged is fetched with the owner, device, author, body, priority and time it was sent with, exactly until an acknowledgement takes effect or a hundred messages follow; whatever is stored under its id at any later moment is that message |
| Fidelity.SecretKeepsWorking | internal/store/devices.go:53-60 | The secret of an acknowledged hello is accepted and any other refused, at every later moment of the run until the device is deleted, through failed saves, crashes and reopenings |
| Fidelity.HelloRefusedExactly | internal/store/devices.go:53-60 | At any moment of any run a hello is refused if and only if the device is known and its first surviving hello since its last deletion gave another secret |
| Fidelity.CreatedUserStays | internal/store/users.go:34-50 | A user whose creation was acknowledged is there, exactly as created, at every later moment of the run |
| Guarantees.AckedNeverPending | internal/store/messages.go:132-163 | A message that an acknowledged report listed as acknowledged is never pending again, at any later moment, through crashes |
| Guarantees.StaleAckHidesMessage | internal/store/messages.go:95-154 | From any saved memory: a fetched message is undone by a crash, the next message takes its id, and the late acknowledgement of the first hides the second, whose sending was acknowledged |
| Guarantees.ShownCodeStaysUsable | internal/store/devices.go:49-119 | A code returned by an acknowledged hello binds exactly that device and changes no other, until it expires or a bind enters it, through any other hellos, binds, renames, deletions, crashes and reopenings |
| Guarantees.MessagesAreSourced | internal/httpapi/messages.go:21-57 | Every stored message, in memory or on disk, is from a user to a device that was bound to that user at an earlier moment of the run, although check and append are separate critical sections |
| Ownership.AllOwnedStep | internal/store/devices.go:139-154 | If every stored message's sender has its device bound, this remains so after an operation if and only if it neither deletes a device with messages from its owner nor appends for a sender without the device |
| Ownership.OwnershipStep | internal/store/devices.go:139-154 | A user keeps a bound device under every operation but the user's own deletion of it |
| Ownership.MessagesOwnedExactly | internal/httpapi/messages.go:21-57 | Through failed saves, crashes and reopenings, every stored message belongs to its device's current owner at every moment so far if and only if none of the two orphaning events happened |
| Ownership.PendingOutlivesOwner | internal/store/messages.go:115-130 | After deletion, a new hello and a bind by another user, the device is handed exactly what was pending before, the former owner's messages included |
| Rollback.ReportedVersionSurvives | internal/store/todos.go:46-69 | For every run and every to-do in memory: its id and version, and the to-do itself, are there after a crash and reopening if and only if no addition or update of it is without a later successful save |
| Rollback.ReportedVersionCanRollBack | internal/store/todos.go:55-58 | A run in which a reported version is undone by a crash: a witness for `ReportedVersionSurvives` |
| History.TodosAreFolds | internal/store/todos.go:46-69 | Every stored to-do is its creation followed by exactly the updates that succeeded on it, in order; its text and its status are those of the latest of these that gave one, its owner and creation time those of its addition |
| History.TodosSayLatest | internal/store/todos.go:27-69 | In any log, a stored to-do's text is the argument of the last successful update of it that gave a text, or else of its addition, and likewise its status; owner and creation time are those of its addition |
| History.VersionCountsUpdates | internal/store/todos.go:65 | A version is one plus the number of successful updates |
| History.SwappedOnce | internal/store/todos.go:55-58 | In a log, no version of a to-do is swapped twice |
| History.AddedIdsGrow | internal/store/todos.go:41 | Later additions of to-dos and messages get larger ids |
| History.InboxIsWindow | internal/store/messages.go:107-111 | The bounded list is the last hundred of an unbounded history with current acknowledgements, and the counter and ids count messages |
| History.PendingUntil | internal/store/messages.go:115-130 | A pending message stays pending and unchanged if and only if no acknowledgement named it and fewer than a hundred messages followed |
| State.ApplyKeepsInv | internal/store/devices.go:49-154 | Every operation keeps all store invariants |
| Effects.TouchesOnly | internal/store/todos.go:27-85 | An operation changes its own part of the state and nothing else; one that does not save changes nothing |
| Effects.HelloWrites | internal/store/devices.go:49-90 | A hello is refused if and only if a device with the id carries another secret; otherwise it writes one device and describes it: a known one keeps identity, owner, name, secret and binding, and its code unless that had lapsed, a new one has the secret given, no owner, and a code good for ten minutes |
| Devices.HelloRemembersSecret | internal/store/devices.go:53-60 | After a greeted hello the one device with the id carries its secret, so the next hello is greeted if and only if it gives that one |
| Effects.BindWrites | internal/store/devices.go:92-119 | A code shown unexpired is bound, an expired one refused, any other unknown; the device bound gets the owner, the name given or else its id, and the time, loses its code and keeps the rest |
| Effects.RenameWrites | internal/store/devices.go:121-137 | A rename succeeds if and only if the user has the device, and changes its name alone |
| Effects.DeleteDeviceWrites | internal/store/devices.go:139-154 | A deletion succeeds if and only if the user has the device, and removes it alone |
| Effects.AddMessageWrites | internal/store/messages.go:90-113 | The message returned is the last one stored, with owner, device, author and body as given, the priority given or normal, pending, dated now, under the next id; the oldest of a hundred gives way |
| Effects.AckWrites | internal/store/messages.go:132-163 | The requested messages of the device not acknowledged yet become so now, nothing else changes, and the report is exact |
| Effects.UpdateTodoWrites | internal/store/todos.go:46-69 | Not found, conflict and success, each if and only if; a conflict reports the stored to-do; a success sets the text and status given, keeps the others, raises the version by one, dates the to-do now and returns it as stored |
| Effects.DeleteTodoWrites | internal/store/todos.go:71-85 | Not found, conflict and success, each if and only if; a success removes that to-do alone |
| State.LoadOutcome | internal/store/state.go:38-55 | Loading fails if and only if the file cannot be read or has contents that do not decode; without contents the state is empty with counters at 1, with them it is what they decode to, repaired field by field |
| State.NormalizeChangesNothing | internal/store/state.go:74-92 | States that satisfy the invariants are fixed points of normalize |
| State.LoadAfterSave | internal/store/state.go:38-55 | Loading what was saved gives the same state back |
| Guarantees.CodeStaysHeld | internal/store/devices.go:49-119 | A code live in memory and in the saved state stays so under every event that neither enters it nor is a late hello of its device |
| State.EmptyCodeRefused | internal/store/devices.go:97-104 | Binding with an empty code never binds |
| State.NonInterference | internal/store/messages.go:47-56 | A step by one user leaves another's to-dos and devices unchanged and turns the other's newest-first messages into a prefix, at most one shorter |
| Todos.UpdateSpendsVersion | internal/store/todos.go:46-69 | A successful update met exactly the version it named, changed that item alone and leaves the version spent |
| Todos.DeleteSpendsVersion | internal/store/todos.go:71-85 | A successful deletion met exactly the version it named, removed that item alone and leaves the version spent |
| Todos.SpentStays | internal/store/todos.go:46-85 | A spent version stays spent under every change to the list |
| Inbox.AckReport | internal/store/messages.go:132-163 | The acknowledged list is the distinct requested ids stored for the device, ascending; the missing list is the rest of the request with repeats kept |
| Inbox.AckTwice | internal/store/messages.go:143-154 | Acknowledging again gives the same report, reverts no status and keeps the first acknowledgement time |
| Inbox.AckKeepsRequests | internal/store/messages.go:143-154 | An acknowledgement does not change what any other request will report |
| Inbox.AcksCommute | internal/store/messages.go:143-154 | Two acknowledgements give the same statuses in either order |
| Inbox.AckRemovesBatch | internal/store/messages.go:115-154 | Acknowledging a fetched batch removes exactly that batch from what is pending |
| Inbox.DrainDelivers | internal/store/messages.go:115-163 | Fetching up to k and acknowledging, each round at its own time, ends after ceil(n/k) rounds whose batches are, together, the pending list in order, each message once |
| Devices.HelloGivesUsableCode | internal/store/devices.go:49-90 | A hello keeps the table consistent and an unbound device leaves with its own unexpired code, drawn anew exactly when the old one had lapsed and then different from every code held |
| Devices.BindTakesTheDevice | internal/store/devices.go:92-119 | At most one device matches a code, whatever the outcome; a bind succeeds if and only if the code is shown and unexpired, is refused if and only if it is shown and expired, changes that device alone, and the code is unknown afterwards |
| Devices.BindLiveCode | internal/store/devices.go:92-119 | Binding a live code takes exactly the device that shows it |
| Devices.RenameKeepsTable | internal/store/devices.go:121-137 | Renaming keeps the table consistent and changes the name of that device alone |
| Devices.DeleteKeepsTable | internal/store/devices.go:139-154 | Deleting keeps the table consistent and removes exactly the device with the id |
| Devices.Rebinding | internal/store/devices.go:139-154 | A deleted device can say hello again and be bound by another user |
| Devices.HelloKeepsLiveCode | internal/store/devices.go:49-90 | A hello by another device, or by the same one before expiry, leaves a live code live |
| Devices.BindKeepsLiveCode | internal/store/devices.go:92-119 | A bind with another code leaves a live code live |
| Devices.ManageKeepsLiveCode | internal/store/devices.go:121-154 | No user can rename or delete a device away while it shows a code |
| Devices.HeldByUnbound | internal/store/devices.go:182-189 | As many codes are held as devices are unbound |
| Devices.PairingNeverStarves | internal/store/devices.go:173-180 | A free code is eventually drawn if and only if fewer than a million devices wait to be bound |
| Text.TrimSpaceCuts | internal/store/devices.go:106 | Trimming keeps exactly the part from the first to the last character that is not white space |
| BindCodes.AllCodes | internal/store/store.go:80-90 | There are exactly a million six-digit codes, the numbers below a million written with six digits |
| BindCodes.FreeCodeExists | internal/store/devices.go:173-189 | A free code exists if and only if fewer than a million are held |
| BindCodes.RejectionEnds | internal/store/devices.go:173-180 | With digits that go through every code, rejection meets a free one if and only if fewer than a million are held |
| BindCodes.CountingDrawsAll | internal/store/store.go:80-90 | There are digits that go through every code |
| StateFiles.StateFile.constructor | internal/store/state.go:27-36 | A new state is fresh |
| StateFiles.StateFile.Load | internal/store/state.go:38-55 | Load gives the decoded and normalized state, a fresh one for a missing or empty file, or an error |
| StateFiles.StateFile.Normalize | internal/store/state.go:74-92 | Normalize repairs counters, weather and messages |
| StateFiles.StateFile.RepairMessages | internal/store/state.go:84-91 | The in-place loop repairs every message |
| StateFiles.StateFile.NextTodoId | internal/store/todos.go:106-114 | The loop computes the least counter above all ids |
| StateFiles.StateFile.Save | internal/store/state.go:57-72 | The state file changes only when every step succeeds, and then holds the whole memory |
| Store.FileStore.OpenFiles | internal/store/store.go:31-50 | The store opens if and only if both paths are given and both files load; memory is the saved state and the counter follows the window |
| Store.FileStore.NextTelemetryId | internal/store/store.go:62-70 | The loop computes the least counter above all ids |
| Store.FileStore.RandomDigits | internal/store/store.go:80-90 | The filled buffer is the next digits of the source |
| Store.FileStore.UniqueBindCode | internal/store/devices.go:173-180 | Returns the first draw that is a free six-digit code, and returns whenever some draw is free |
| Store.FileStore.BindCodeExists | internal/store/devices.go:182-189 | True if and only if a device holds the code |
| Store.FileStore.HelloDevice | internal/store/devices.go:49-90 | Does the hello operation with a free drawn code; refused if and only if the device carries another secret; a greeting describes the device stored, which carries this secret; refusal and failed save give an empty reply |
| Store.FileStore.BindDevice | internal/store/devices.go:92-119 | Does the bind operation with the trimmed name; found, bound and error are as the outcome and the save say, and the device returned is the one stored, taken over |
| Store.FileStore.UpdateDevice | internal/store/devices.go:121-137 | Does the rename operation with the trimmed name; found if and only if the user has the device, which is returned as stored |
| Store.FileStore.DeleteDevice | internal/store/devices.go:139-154 | Does the delete operation; found if and only if the user has the device |
| Store.FileStore.Devices | internal/store/devices.go:36-47 | Exactly the user's devices in table order |
| Store.FileStore.OwnerDeviceIds | internal/store/messages.go:37-45 | Exactly the ids of the user's devices |
| Store.FileStore.CreateUser | internal/store/users.go:34-50 | Appends and returns the user with trimmed name, or the default one, and trimmed email, and saves |
| Store.FileStore.AddDeviceMessage | internal/store/messages.go:90-113 | Appends the message with the fields given under the next id, returns it as stored last, keeps a hundred, and saves |
| Store.FileStore.PendingDeviceMessages | internal/store/messages.go:115-130 | The first `limit` pending messages of the device in id order |
| Store.FileStore.MarkWanted | internal/store/messages.go:142-154 | The in-place loop acknowledges exactly the requested messages of the device and leaves the missing ids wanted |
| Store.FileStore.AckDeviceMessages | internal/store/messages.go:132-163 | Does the acknowledgement, reports acknowledged and missing ids, and saves |
| Store.FileStore.DeviceMessages | internal/store/messages.go:72-88 | The newest `limit` messages between user and device, newest first |
| Store.FileStore.OwnerMessages | internal/store/messages.go:47-56 | All the user's messages, newest first |
| Store.FileStore.TodoIndex | internal/store/todos.go:87-94 | The first position of the user's to-do, or -1 |
| Store.FileStore.Todos | internal/store/todos.go:96-104 | Exactly the user's to-dos in list order |
| Store.FileStore.AddTodo | internal/store/todos.go:27-44 | Appends the to-do as given at version 1, returns it as stored, and saves |
| Store.FileStore.UpdateTodo | internal/store/todos.go:46-69 | Found and swapped exactly if the user has the to-do, and at that version; then the patch is applied in its place and the to-do returned as stored; a conflict returns the stored one; a failed save is told apart |
| Store.FileStore.DeleteTodo | internal/store/todos.go:71-85 | Does the compare-and-swap deletion; found and swapped exactly if the user has the to-do, and at that version |
| Store.FileStore.AddTelemetry | internal/store/telemetry.go:52-71 | Appends the report as given, with the counter as id, the time, and what it left out filled in, and returns it; a failed append returns the empty record and leaves the counter |
| Store.FileStore.Telemetry | internal/store/telemetry.go:9-19 | The last `limit` records, newest first; empty if the log cannot be read |
| Store.FileStore.DeviceTelemetry | internal/store/telemetry.go:21-50 | The device's view of the window if the user owned the device when it was looked up; others may append before the log is read |
| Store.FileStore.FilterTelemetryByDevices | internal/store/messages.go:58-70 | The window's records for these devices, newest first, cut to the limit |
| Store.FileStore.Snapshot | internal/store/messages.go:9-29 | The user's messages newest first, to-dos, and the user's records of the window oldest first; others may append between the state and the log being read |
| LogFile.Slice.Append | internal/store/telemetry_log.go:45 | Appends one element, growing the backing array |
| LogFile.Slice.KeepLast | internal/store/telemetry_log.go:46-49 | The in-place copy and cut keep exactly the last elements in order |
| LogFile.Slice.Reverse | internal/store/telemetry.go:73-77 | The in-place swaps reverse the slice |
| LogFile.TelemetryFile.LoadRecent | internal/store/telemetry_log.go:22-55 | The scan loop with its sliding window returns the last `limit` records of the parsed log, or an error |
| LogFile.TelemetryFile.Append | internal/store/telemetry_log.go:57-81 | Appends one whole line or nothing |
| TelemetryLog.ParseOfFrame | internal/store/telemetry_log.go:32-54 | A log of appended records parses to exactly them if every line fits the scanner, and to an error if and only if one does not |
| TelemetryLog.ParseOfText | internal/store/telemetry_log.go:32-54 | Any text file reads as the records on its lines - blank lines, carriage returns and a missing last newline do not matter - if and only if no line is too long or undecodable, and else as an error |
| TelemetryLog.WindowCounter | internal/store/store.go:44-48 | The counter rebuilt from a bounded window equals the one rebuilt from the whole log |
| TelemetryLog.RestartRebuilds | internal/store/store.go:44-48 | A restart continues the numbering without a gap |
| TelemetryLog.LogHoldsAppended | internal/store/telemetry.go:52-71 | Over any run with failed appends and restarts the file holds exactly the records returned as stored; they are the reports whose append was written, in order, unchanged but for what a report left out, and numbered 1, 2, 3, ... |
| TelemetryLog.ReadAfterRun | internal/store/telemetry_log.go:22-55 | After any run, reading with any limit gives the last `limit` appended records, and a restart succeeds, if and only if every line fits the scanner |
| TelemetryLog.ReadsWhatWasGiven | internal/store/telemetry_log.go:22-55 | After any run, the k-th record read back is the k-th of the last `limit` reports written: same device and report, same time and app where given, its place in the log as id |
| TelemetryViews.SnapshotIsFilter | internal/store/messages.go:17-28 | The two reversals cancel and the limit cuts nothing: snapshot telemetry is the order-preserving filter of the window |
| TelemetryViews.OwnedIsListed | internal/store/telemetry.go:23-33 | First match by id and listing by owner agree on who owns a device |
| TelemetryViews.ViewsAgree | internal/store/telemetry.go:21-50 | Restricting a snapshot to one device, reversing and limiting is that device's view |
| Views.TodosShown | internal/store/todos.go:96-104 | Exactly the user's to-dos, in the order of the list |
| Views.DevicesShown | internal/store/devices.go:36-47 | Exactly the user's devices, in the order of the list |
| Views.MessagesShown | internal/store/messages.go:47-56 | Exactly the user's messages, newest first |
| Views.DeviceMessagesShown | internal/store/messages.go:72-88 | Of the user's messages to the device the newest up to the limit, newest first |
| Views.PendingShown | internal/store/messages.go:115-130 | Of the device's unacknowledged messages the oldest up to the limit, oldest first |
| Views.MissingShown | internal/store/messages.go:156-161 | The ids reported missing are those of the request not stored for the device, in request order, repeats included |
| Views.DeviceTelemetryShown | internal/store/telemetry.go:21-50 | Of the window's records of the device the newest up to the limit, newest first; none unless the user owns the device |
| Views.SnapshotShown | internal/store/messages.go:17-28 | Exactly the window's records from devices the user owns, oldest first |
| Service.BatchInLog | internal/service/telemetry.go:21-31 | Whatever others append in between, the batch's successful items are in the log in request order as returned and no other record is the batch's; a batch failing at item k leaves exactly its first k |
| Service.BatchAsGiven | internal/service/telemetry.go:21-31 | The records a batch returns are those at its places in the log, each its item as given |
| Service.LocatedIdsIncrease | internal/service/telemetry.go:21-31 | The batch's records carry strictly increasing ids |
| Service.TelemetryService.CreateBatch | internal/service/telemetry.go:21-31 | The log is that of the batch's schedule with the others' attempts in it; success returns the batch's own records, each the item as given, failure nothing |
| Handlers.HandleDeviceAckMessages | internal/httpapi/messages.go:68-98 | Requests with no id, more than a hundred, or one that is not positive are refused and change nothing; all others are the store's acknowledgement |
| Handlers.HandleCreateDeviceMessage | internal/httpapi/messages.go:21-57 | The sender owned the device at the check; a blank body or unknown priority is refused and changes nothing; else memory, file and reply are those of the append on whatever others left since, and the reply is the last message stored, with the trimmed body as its text and the user as owner and author |
| WeatherCache.Cache.constructor | internal/weather/cache.go:25-34 | A cache starts empty, with ten minutes for a lifetime that is not positive |
| WeatherCache.Cache.Current | internal/weather/cache.go:36-53 | Before an expiry that is not the zero time the cached value is returned and nothing changes; otherwise the answer is the provider's, and a value it gives is cached until one lifetime after the reading |
| WeatherCache.RefreshesAreSpaced | internal/weather/cache.go:36-53 | Under every interleaving and all clock readings, refreshes i and j are at least (j-i) lifetimes apart by their stamps, as long as no refresh but the latest expired on the zero time |
| WeatherCache.EntryIsLatest | internal/weather/cache.go:36-53 | Under every interleaving and all clock readings the cache holds the latest refresh |
| WeatherCache.AnswerIsExact | internal/weather/cache.go:36-53 | Under every interleaving, what each caller is answered: the latest refresh if its last reading is before that one's expiry and the expiry is not the zero time, else the value fetched, which is then the latest refresh, and an error only if the provider failed |
| WeatherCache.NextRefresh | internal/weather/cache.go:42 | A refresh is stamped at least a lifetime after the one it replaces unless that one expired on the zero time |
| WeatherCache.SpacingContinues | internal/weather/cache.go:36-53 | After any run, refreshes stay spaced whatever the next caller reads and fetches if and only if the latest refresh did not expire on the zero time |
| WeatherCache.BoundFailsAtZero | internal/weather/cache.go:42 | After a refresh that expired on the zero time, a caller whose clock reads the same instant refreshes again |
| WeatherCache.HitsAreFresh | internal/weather/cache.go:42-44 | Under every interleaving and all clock readings, every hit returns the latest refresh, made less than a lifetime before the caller's reading; failures change nothing |
| WeatherCache.ExpiryIncreases | internal/weather/cache.go:50-52 | The expiry grows by at least a lifetime with every refresh unless the one replaced expired on the zero time, and nothing else moves it |
| WeatherCache.ProtectedUnlessZero | internal/weather/cache.go:42 | A refresh is protected for its whole lifetime if and only if its expiry is not the zero time |

## Left out

- HTTP routing, authentication, header and body parsing, response writing, the web UI and configuration: plumbing around the store.
- The QWeather client: the provider is an arbitrary answer.
- JSON encoding, hashing and randomness themselves: abstract functions and inputs with the assumptions above.
- Torn log lines, reads that overlap a half-written line, and durability below the rename: outside the model.
- State files not written by a save: `State.Normalize` models their repair, but nothing is claimed about fresh ids for them.
- Counter overflow and the difference between wall and monotonic clock readings.
- Lookups of a single user, device or to-do, and clamping of query limits: easy members.
- Pointers into the device and message slices: the model replaces the element at its index, which is what writing through the pointer does under the lock.
- Nil and empty slices are not told apart.
- The panics when the operating system's random source fails.
