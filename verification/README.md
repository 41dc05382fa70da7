# A model of the parcel box firmware

The firmware drives a box of locked doors. It keeps credentials (PINs and packet numbers) in flash, lets people in
through a keypad, a scanner and a web interface, opens and watches the doors, and logs what happens. This project
models its hard parts in Dafny and proves what they promise.

- **Credential store** (`Cred*.dfy`). A doubly linked chain of records in a flat key/value store. A `Pool` is what the
  store stands for, `Image` the store that holds exactly that pool. Every flash write is one atomic step and power may
  fail after any of them. The class `CredStorage` is proved to issue exactly the writes of the specification functions,
  in order; the theorems are about those writes, cut anywhere. `CredRules` says in plain numbers what is accepted, who
  is let in and what is listed.
- **Access control** (`Box*.dfy`, `UseCount.dfy`). The state machine as a function on values over an unbounded clock,
  of which the code sees the low 32 bits, and the class `BoxStateMachine` with 32-bit stamps that refines it. Whole-run
  theorems are about the function, composed with the store for the use counts. `BoxRules` says in plain numbers where
  inputs lead and how long states and penalties last.
- **Log pipeline** (`Log*.dfy`). The ring buffer under any interleaving of producers and the consumer, the
  type-length-value parameter block, the template expander and the in-place control-character expansion.
- **Dates, timeouts, timers, contacts** (`CredDates.dfy`, `Timeout.dfy`, `LockTimers.dfy`, `DoorContacts.dfy`).

Where the code does not meet an unconditional reading of its promise, the exact condition is proved:

- A pool of 4096 or more credentials is accepted by `addCred` and wiped by the next boot (`BootKeepsPoolIff`,
  `FullPoolAddIsWiped`).
- Crash atomicity ends where the 4096 steps of the recovery scan do: at the place of a cut delete, or else at the end
  of the chain (`CrashAtomicity`).
- Between rebuilds of the cache an active credential can be refused: one that becomes valid later is not in the cache,
  and an inactive record with the same text hides one behind it. The exact condition is `GrantedIffCached`;
  `LateIsRefused` is the first case.
- Once the id counter reaches the key of TAIL, an add destroys the chain (`AddKeepsPoolIff`).
- Recovery returns after its first repair; with a second fault in the store the boot can loop for ever in
  `rebuildCache` (`RepairMayLeaveLoop`). It does so only after completing a delete, and exactly when the forward links
  that leaves do not end (`BootEndsIff`).
- A web request handled while a door is being opened for a credential clears the grant without a transition
  (`src/state_machine.cpp:431-439` with `:257`), and `src/main.cpp:899-903` delivers requests in every state. The
  opening then completes without a charge, so a one-use PIN can open more than once (`OneUseOpensTwice`,
  `TakeoversAreUnbounded`). An opening is charged iff no such request came and the credential has not expired
  (`GrantIsChargedIff`); without such requests the count is a bound (`UndisturbedBound`).
- The start of 1970-01-01 does not survive formatting, because its time stamp 0 means "unlimited" (`DateRoundTrip`).
- The expansion of control characters keeps the meaning of a JSON text iff no escape sequence in it consists of a
  backslash and a raw control byte (`EscapeKeepsMeaning`). `src/log_serialization.cpp:37-38` relies on the serializer never writing one.
- `openDoor` ignores whether the end of the pulse could be scheduled. Without a free slot a lock is released only by
  an older deactivation timer that happens to drive it (`LockIsReleasedIff`), and stays energised for ever iff there
  is none (`FullTimersLeaveLockOn`).
- A timeout that is sampled less than once per clock wrap can be missed (`MissedIff`), as
  `include/timeout.h:5-7` warns.

`dafny verify dfyconfig.toml` checks everything.

## Model

| member | source | states |
|---|---|---|
| `Timeout.NeverEarly` | include/timeout.h:8-11 | A timeout that reports elapsed has lasted its full length of real time, whatever the number of clock wraps. |
| `Timeout.ExactWithinOneWrap` | include/timeout.h:8-22 | Within one wrap of its start a timeout is elapsed exactly from its due instant on, and the remaining time counts down to it. |
| `Timeout.MissedIff` | include/timeout.h:5-11 | At any later instant: elapsed iff the real time modulo one wrap reaches the length; a due timeout is missed iff a whole wrap has passed and that remainder is shorter. |
| `CredTypes.LinkRoundTrip` | src/pass_store.cpp:79-90 | Storing a valid credential and reading it back loses nothing, and the stored record is valid for recovery iff its id is a real one. |
| `CredChain.HoldsIffImage` | src/pass_store.cpp:20-30 | A store in which every link of the pool is in place and no other key exists is exactly `Image` of the pool. |
| `CredRecovery.LinkedIsDistinct` | src/pass_store.cpp:707-780 | In any store, a path from HEAD with mutually consistent links never visits an id twice. |
| `CredRecovery.AcceptedIffCertified` | src/pass_store.cpp:707-780 | For every store: recovery returns true without writing iff the HEAD-to-TAIL walk is a consistent chain of at most 4095 valid credentials. |
| `CredRecovery.ScanArrives` | src/pass_store.cpp:720-774 | The recovery scan of a store that agrees with a pool up to node k reaches node k undisturbed. |
| `CredRecovery.CleanPoolIsKept` | src/pass_store.cpp:783-792 | Recovery writes nothing to a well-formed pool of at most 4095 credentials. |
| `CredRecovery.OversizedPoolIsWiped` | src/pass_store.cpp:720-792 | Recovery wipes every larger well-formed pool. |
| `CredRecovery.ResetGivesEmptyPool` | src/pass_store.cpp:517-536 | A reset leaves exactly the empty pool, whatever was stored. |
| `CredRecovery.AddWritesOnPool` | src/pass_store.cpp:113-136 | On a well-formed pool an add issues the three writes of the documented insert and returns the pool's next id. |
| `CredRecovery.InsertCompletes` | src/pass_store.cpp:362-390 | The three insert writes take the image of a pool to the image of the pool with the new credential at its end. |
| `CredRecovery.InsertCut1RollsBack` | src/pass_store.cpp:725-731 | Insert cut after write 1: one recovery write restores the old store exactly. |
| `CredRecovery.InsertCut2RollsForward` | src/pass_store.cpp:743-752 | Insert cut after write 2: recovery issues exactly the missing third write. |
| `CredRecovery.DeleteCompletes` | src/pass_store.cpp:194-235 | The three delete writes take the image of a pool to the image of the pool without that credential. |
| `CredRecovery.DeleteCut1RollsForward` | src/pass_store.cpp:754-768 | Delete cut after write 1, at a place within the scan of a pool of any size: recovery issues exactly the two missing writes. |
| `CredRecovery.DeleteCut2RollsForward` | src/pass_store.cpp:761-766 | Delete cut after write 2, likewise: recovery issues exactly the missing write. |
| `CredCrash.RemoveWritesOnPool` | src/pass_store.cpp:194-235 | A removal succeeds iff the pool holds the credential, and then issues the three delete writes for it. |
| `CredCrash.UpdateWritesOnPool` | src/pass_store.cpp:285-309 | An update succeeds iff the pool holds a credential of the same identity, and then rewrites that one record in its place. |
| `CredCrash.OpCompletes` | src/pass_store.cpp:92-244 | Every uncut add, remove or update takes the image of a well-formed pool to the image of the pool it should give. |
| `CredCrash.StageWrites` | src/pass_store.cpp:707-806 | The exact recovery writes from every store an interruption can leave, a half-written reset included. |
| `CredCrash.StageRecovers` | src/pass_store.cpp:783-806 | One completed boot turns every such store into the image of its pool. |
| `CredCrash.StageSurvivesCut` | src/pass_store.cpp:517-536 | Recovery itself may be cut after any write: the store still recovers to the same pool. |
| `CredCrash.CutOpStage` | src/pass_store.cpp:352-408 | The store after k writes of an operation is an interrupted store of the old pool before the commit point, of the new one from it on. |
| `CredCrash.CrashAtomicity` | src/pass_store.cpp:20-30 | Cutting an add, remove or update on any well-formed pool after any write, then booting, gives exactly the old store before the commit point and exactly the new one from it on, iff the scan's 4096 steps reach the place of a cut delete or else the end of the chain. |
| `CredCrash.BeyondScanIsWiped` | src/pass_store.cpp:720-792 | Otherwise the boot leaves the empty pool. |
| `CredRuns.RecoveryRestoresCommitted` | src/pass_store.cpp:783-806 | For every run of operations, boots and power cuts anywhere, from a blank or well-formed store: the next completed boot yields exactly the image of the committed operations. |
| `CredRuns.IdsNeverReissued` | src/pass_store.cpp:363-382 | Along every such run the ids returned by adds strictly increase and stay below the counter, across deletes and recoveries. |
| `CredRuns.BootKeepsPoolIff` | src/pass_store.cpp:73 | A boot keeps a well-formed pool iff it has at most 4095 credentials. |
| `CredRuns.FullPoolAddIsWiped` | src/pass_store.cpp:113-136 | The add of credential 4096 returns an id, and the next boot leaves the empty pool. |
| `CredRuns.AddKeepsPoolIff` | src/pass_store.cpp:352-390 | An add of a valid credential leaves a well-formed store iff the id counter is below the key of TAIL. |
| `CredCache.CertifiedIsWalkable` | src/pass_store.cpp:438-473 | On every store that recovery accepts untouched the unbounded loop of `rebuildCache` ends. |
| `CredBoot.BootEndsIff` | src/pass_store.cpp:475-490 | For every store: the boot ends iff recovery completes no delete, or the forward links of the store without the record it erases end within as many steps as there are records. Accepting, resetting, rolling an insert back and redoing it never leave a loop. |
| `CredBoot.NoDeleteEnds` | src/pass_store.cpp:725-752 | Every outcome of the scan but a completed delete leaves a chain that ends at TAIL. |
| `CredBoot.WalkBound` | src/pass_store.cpp:438-473 | A walk over forward links that ends visits no record twice, so it ends within as many steps as there are records. |
| `CredBoot.RepairMayLeaveLoop` | src/pass_store.cpp:754-768 | A concrete store with two faults that recovery calls repaired and on which `rebuildCache` never ends. |
| `CredBoot.BootServesCommitted` | src/pass_store.cpp:475-490 | After any run of operations, boots and power cuts, the next completed boot ends, and its cache holds exactly the active credentials of the committed pool, sorted by id and in step with the store. |
| `CredBoot.AccessAfterBoot` | src/pass_store.cpp:138-165 | Right after it, access goes exactly to the first active match among the committed credentials. |
| `CredBoot.PagingAfterBoot` | src/pass_store.cpp:255-270 | Right after it, paging lists exactly the active committed credentials of the type, each once. |
| `CredCache.RebuildOnPool` | src/pass_store.cpp:438-473 | Rebuilding the cache of a well-formed pool yields exactly its active credentials, in chain order. |
| `CredCache.AddRefines` | src/pass_store.cpp:113-136 | An add keeps store and cache in step with the pool, returns the new id or 0, and keeps an id-sorted cache sorted. |
| `CredCache.UpdateRefines` | src/pass_store.cpp:92-109 | The same for an update, which succeeds iff the pool holds the credential. |
| `CredCache.RemoveRefines` | src/pass_store.cpp:194-244 | The same for a removal. |
| `CredCache.RebuildRefines` | src/pass_store.cpp:438-473 | A rebuild keeps store and cache in step and leaves the cache sorted by id. |
| `CredCache.VerifySound` | src/pass_store.cpp:138-165 | A granted door is that of a stored, matching credential of the right type that is active now, and only the verified id changes. |
| `CredCache.VerifyAfterRebuild` | src/pass_store.cpp:138-165 | Right after a rebuild at the same instant, access goes exactly to the first active match in chain order, and to nobody if there is none. |
| `CredCache.GrantedIffCached` | src/pass_store.cpp:138-165 | At any time: the first active match among the stored credentials is granted iff it is the first textual match of the cache; without one nobody is let in. |
| `CredCache.LateIsRefused` | src/pass_store.cpp:438-473 | A credential whose validity starts after the last rebuild is refused until the next one, whatever is entered. |
| `CredCache.PagingIsComplete` | src/pass_store.cpp:255-270 | Paging an id-sorted cache from last id + 1 lists every active record of the type exactly once, for any page size. |
| `CredRules.AddAccepts` | src/pass_store.cpp:113-136 | An add returns an id iff the text is a PIN of 6 to 8 digits or 8 to 20 printable characters, the name has 1 to 10 characters and some instant lies in the window; then the credential is stored last under the next id, otherwise nothing changes. |
| `CredRules.UpdateAccepts` | src/pass_store.cpp:92-109 | An update succeeds iff the credential is acceptable in that sense and stored under the same id, type, name and text; then exactly that record is replaced, otherwise nothing changes. |
| `CredRules.RemoveAccepts` | src/pass_store.cpp:194-244 | A removal returns the id iff the credential is stored; then exactly that record is gone, otherwise nothing changes. |
| `CredRules.OthersStayCached` | src/pass_store.cpp:92-109 | A successful update is cached, and neither update nor removal drops another credential from the cache. |
| `CredRules.StoredIsValidIff` | src/pass_store.cpp:559-569 | Recovery takes a stored record for valid iff it holds an acceptable credential under a real id. |
| `CredRules.AdmitsFirst` | src/pass_store.cpp:138-165 | Right after a rebuild, a PIN, or 8 to 64 scanned printable characters, opens the door of the first credential that answers it, has a use left or is unlimited, and whose window holds the instant. |
| `CredRules.AdmitsNobody` | src/pass_store.cpp:138-165 | Without such a credential, and for any other text, nobody is let in. |
| `CredRules.OnlyAnswerIsAdmittedIff` | src/pass_store.cpp:427-436 | The only credential that answers a text is let in iff its count is not 0 and the instant lies in its window. |
| `CredRules.UseOfMany` | src/pass_store.cpp:167-191 | Using a credential takes one of several uses and keeps all others cached. |
| `CredRules.UseOfLast` | src/pass_store.cpp:167-191 | Using it for the last time removes it, and no other. |
| `CredRules.UseOfOther` | src/pass_store.cpp:167-191 | Using an unlimited or unusable credential changes nothing but the verified id. |
| `CredRules.ListsExactly` | src/pass_store.cpp:255-270 | A listing shows exactly the cached credentials usable now, from the start id on, of the type asked for; a page is its front part. |
| `CredStorageObject.CredStorage.WriteData` | src/pass_store.cpp:504-515 | Writes the record under its id, one flash write. |
| `CredStorageObject.CredStorage.WriteCred` | src/pass_store.cpp:352-408 | Issues exactly the specified writes, in order, and returns the specified id. |
| `CredStorageObject.CredStorage.AddCred` | src/pass_store.cpp:113-136 | The specified writes in order, and the specified new store, cache and id. |
| `CredStorageObject.CredStorage.UpdateCred` | src/pass_store.cpp:92-109 | The specified writes in order, and the specified new store, cache and result. |
| `CredStorageObject.CredStorage.RemoveCred` | src/pass_store.cpp:194-244 | The specified writes in order, and the specified new store, cache and id. |
| `CredStorageObject.CredStorage.VerifyCred` | src/pass_store.cpp:138-165 | The door and the verified id of the first textual match, refused if that record is inactive; nothing else changes. |
| `CredStorageObject.CredStorage.UsedCred` | src/pass_store.cpp:167-191 | The specified consumption of the verified credential, in store and cache. |
| `CredStorageObject.CredStorage.GetCreds` | src/pass_store.cpp:255-270 | The first num listed records from a start id on. |
| `CredStorageObject.CredStorage.RebuildCache` | src/pass_store.cpp:438-473 | The loop over the chain computes the specified cache, on every store whose walk ends. |
| `CredStorageObject.CredStorage.ResetPool` | src/pass_store.cpp:517-536 | Clear, HEAD, TAIL, in this order, and an empty cache. |
| `CredStorageObject.CredStorage.EnsurePool` | src/pass_store.cpp:538-557 | True and untouched iff both sentinels are there and sound; otherwise a reset. |
| `CredStorageObject.CredStorage.RepairCredChain` | src/pass_store.cpp:707-780 | The scan issues exactly the specified repair and returns its verdict. |
| `CredStorageObject.CredStorage.CompleteDelete` | src/pass_store.cpp:754-768 | The interrupted-delete branch: erase if still there, then relink. |
| `CredStorageObject.CredStorage.GarbageCollect` | src/pass_store.cpp:783-792 | A boot's recovery issues exactly the writes that the recovery theorems are about. |
| `CredStorageObject.CredStorage.Begin` | src/pass_store.cpp:475-490 | Recovery, then a cache built from the recovered store, on exactly the stores on which the code returns. |
| `BoxRuns.BootInvariant` | src/state_machine.cpp:29-54 | The machine invariants hold after initialisation. |
| `BoxRuns.StepInvariant` | src/state_machine.cpp:64-179 | Every event and every update keeps them: verified only in Opening and for the verified door, scanned implies verified, BadPass has a penalty of 5000·min(count,7) ms with count ≥ 1, entry states have none, light and controls fit the state, External is never entered. |
| `BoxRuns.RunInvariant` | src/state_machine.cpp:256-333 | They hold in every state of every run. |
| `BoxRuns.CountIsStreak` | src/state_machine.cpp:361-380 | The bad-attempt counter is the number of failed attempts since the last success, saturated at 255. |
| `BoxRuns.FailureBlocks` | src/state_machine.cpp:650-667 | A failed attempt starts a penalty for its count and leaves the entry states. |
| `BoxRuns.BlockedStays` | src/state_machine.cpp:335-401 | While a penalty runs no input clears it or leads to an entry state. |
| `BoxRuns.PenaltySeparation` | src/state_machine.cpp:104-146 | In every run, the k-th failed attempt in a row is followed by no attempt for 5000·min(k,7) ms of real time, across cancels, web openings, changes between PIN and scan, and clock wraps. |
| `BoxRules.PenaltyRule` | src/state_machine.cpp:650-667 | In every run, the k-th failed attempt in a row, at t, starts a penalty of 5000 ms times k, at most 35000 ms. |
| `BoxRules.PenaltyEnds` | src/state_machine.cpp:138-146 | With updates only, at most gap apart, it ends at the first update from t + 5000·min(k,7) ms on, so at most gap later, with a new entry, and at no earlier one. |
| `BoxRules.RetryRule` | src/state_machine.cpp:138-146 | In every run, the update that ends a penalty leads to Scan iff the last input that led into it was a failed scan or a Key3, and to Password iff it was a failed PIN or a Key1. |
| `BoxRuns.TickProgress` | src/state_machine.cpp:104-179 | A tick brings the machine to Home or Open in time, or keeps it live with no later deadline. |
| `BoxRuns.BoundedReturn` | src/state_machine.cpp:104-179 | With ticks only, a live machine is in Home or Open within 65 s and two tick gaps. |
| `BoxRuns.ReachableIsLive` | src/state_machine.cpp:516-667 | Every machine reached from boot with regular ticks is live. |
| `BoxRuns.ReachableReturns` | src/state_machine.cpp:104-179 | Hence the bound holds from every reachable state. |
| `BoxRules.TimesOut` | src/state_machine.cpp:120-178 | With updates only, a PIN entry lasts exactly 30 s from the input that began it, a scan 9 s, a presence code 30 s, the light after closing 5 s; the first update then leads to Home. |
| `BoxRules.OpeningTimesOut` | src/state_machine.cpp:585-600 | An opening whose door stays shut lasts exactly 1 s from the pulse of its lock, and ends at once without a lock. |
| `BoxRules.ContactRule` | src/state_machine.cpp:104-179 | An update that finds the contact of the door open leads to Open. |
| `BoxRules.HomeKeys` | src/state_machine.cpp:335-360 | In Home the keys lead to a PIN, a presence code or a scan, or back to a penalty that still runs, unchanged. |
| `BoxRules.OtherKeys` | src/state_machine.cpp:335-401 | Elsewhere they change nothing. |
| `BoxRules.CancelRule` | src/state_machine.cpp:335-401 | Cancel leaves an entry, a presence code or a penalty, which goes on, and changes nothing elsewhere. |
| `BoxRules.PinRule` | src/state_machine.cpp:361-380 | A PIN opens the door the store grants for it and clears the failure count, or counts as a failure and starts a penalty. |
| `BoxRules.ScanRule` | src/state_machine.cpp:403-429 | So does a code scanned within 9 s; an invalid one counts as a failure. |
| `BoxRules.ScannerRule` | src/state_machine.cpp:403-429 | Outside Scan the scanner changes nothing; a scanner failure, and anything scanned after 9 s, ends the scan without an attempt. |
| `BoxRules.WebRule` | src/state_machine.cpp:431-439 | A web request always leads to Opening, for the door it names and on nobody's account. |
| `BoxRules.DoorRule` | src/state_machine.cpp:441-471 | A contact counts only for the door being opened, or closed again; that of another door changes nothing. |
| `BoxRules.TimeoutRule` | src/state_machine.cpp:473-512 | A timeout event ends its own state only. |
| `BoxRules.LightRule` | src/state_machine.cpp:585-639 | The light goes on with a pulsed lock, off in Home and when Closed ends, and stays as it is otherwise. |
| `BoxRules.ControlsRule` | src/state_machine.cpp:516-600 | The web controls are enabled on the way to Home, disabled on the way to an entry or an opening, and kept otherwise. |
| `BoxRules.PresenceRule` | src/state_machine.cpp:571-579 | A presence code starts with each entry of Presence, and only an update ends it. |
| `BoxRules.PresenceTick` | src/state_machine.cpp:108-110 | An update ends it iff 30 s have passed, in whatever state. |
| `BoxRules.ConsumptionRule` | src/state_machine.cpp:606-614 | Reaching Open uses the verified credential, except a scanned one while the test flag is set. |
| `BoxStateMachineObject.BoxStateMachine.constructor` | src/state_machine.cpp:29-54 | Starts in the boot context. |
| `BoxStateMachineObject.BoxStateMachine.OnExit` | src/state_machine.cpp:260-287 | The exit action of the current state. |
| `BoxStateMachineObject.BoxStateMachine.OnEnterHome` | src/state_machine.cpp:516-527 | Light off, grant cleared, controls enabled. |
| `BoxStateMachineObject.BoxStateMachine.OnEnterPassword` | src/state_machine.cpp:533-546 | Penalty cleared, entry timeout started, controls disabled. |
| `BoxStateMachineObject.BoxStateMachine.OnEnterScan` | src/state_machine.cpp:553-565 | Grant and penalty cleared, scan timeout started, controls disabled. |
| `BoxStateMachineObject.BoxStateMachine.OnEnterPresence` | src/state_machine.cpp:571-579 | Presence code started. |
| `BoxStateMachineObject.BoxStateMachine.OnEnterOpening` | src/state_machine.cpp:585-600 | Door timeout and light iff a lock was pulsed, an immediate timeout otherwise. |
| `BoxStateMachineObject.BoxStateMachine.OnEnterOpen` | src/state_machine.cpp:606-621 | The verified credential is consumed in the store, unless kept for tests, and the grant cleared. |
| `BoxStateMachineObject.BoxStateMachine.OnEnterClosed` | src/state_machine.cpp:627-634 | Ambient timeout started, door forgotten. |
| `BoxStateMachineObject.BoxStateMachine.OnEnterBadPass` | src/state_machine.cpp:650-667 | A running penalty is kept, otherwise one for the current count starts. |
| `BoxStateMachineObject.BoxStateMachine.TransitionTo` | src/state_machine.cpp:256-333 | With 32-bit stamps, exit and entry actions take exactly the transition of the real-time model, in machine and store; no transition to the same state. |
| `BoxStateMachineObject.BoxStateMachine.HandleKeyboardEvent` | src/state_machine.cpp:335-401 | Takes exactly the step of the model. |
| `BoxStateMachineObject.BoxStateMachine.HandleScannerEvent` | src/state_machine.cpp:403-429 | Takes exactly the step of the model. |
| `BoxStateMachineObject.BoxStateMachine.HandleWebEvent` | src/state_machine.cpp:431-439 | Takes exactly the step of the model; in Opening it replaces the door without a transition. |
| `BoxStateMachineObject.BoxStateMachine.HandleSensorEvent` | src/state_machine.cpp:441-471 | Takes exactly the step of the model. |
| `BoxStateMachineObject.BoxStateMachine.HandleTimerEvent` | src/state_machine.cpp:473-512 | Takes exactly the step of the model. |
| `BoxStateMachineObject.BoxStateMachine.ProcessEvent` | src/state_machine.cpp:64-102 | Every event takes exactly the step of the model. |
| `BoxStateMachineObject.BoxStateMachine.Update` | src/state_machine.cpp:104-179 | Every update takes exactly the tick of the model. |
| `UseCount.UseRefines` | src/pass_store.cpp:167-191 | Consuming a use keeps store and cache in step with the pool, and clears the verified id. |
| `UseCount.UseTakesOne` | src/pass_store.cpp:167-191 | It takes one use from exactly the verified credential, and removes it with the last one. |
| `UseCount.GlanceAt` | src/state_machine.cpp:64-102 | What the history records of happening k is what the machine does there: whom it grants, whether the door stays opening, whether it is a web request. |
| `UseCount.PastMeans` | src/state_machine.cpp:585-600 | The history of a run names a credential and a takeover iff some happening granted it the current Opening and a web request was handled since. |
| `UseCount.OpeningIsChargedIff` | src/state_machine.cpp:606-614 | A completed opening that a credential started takes one use from it iff no web request was handled since its grant and it has not expired. |
| `UseCount.GrantIsChargedIff` | src/state_machine.cpp:606-614 | The same over every run, for a grant at any place of it. |
| `UseCount.ConsumingTracks` | src/state_machine.cpp:606-614 | An Opening-to-Open transition with a verified grant takes one use from exactly the credential granted, unless it has expired. |
| `UseCount.AttemptTracks` | src/state_machine.cpp:361-380 | An attempt changes no count and never grants an expired credential. |
| `UseCount.NextTracks` | src/state_machine.cpp:403-429 | Every input and every cache rebuild takes a use from a credential exactly if it is a charged opening of it. |
| `UseCount.UsesAreConserved` | src/state_machine.cpp:606-614 | Over every run without administration: the uses a credential has lost are exactly its charged openings; it starts at most n openings besides those taken over; if it has not expired, openings = uses lost + openings taken over. |
| `UseCount.UndisturbedBound` | src/state_machine.cpp:606-614 | In every run in which no web request is handled while a door opens for it, a credential with n > 0 uses starts at most n openings. |
| `UseCount.UnlimitedIsKept` | src/pass_store.cpp:167-191 | No run without administration changes an unlimited credential, whatever the clocks and the test flag. |
| `UseCount.UnlimitedAlwaysEnters` | src/pass_store.cpp:138-165 | After every such run and a rebuild, an unlimited PIN that no other stored credential shares opens its door in its window. |
| `UseCount.TakeoverIsFree` | src/state_machine.cpp:431-439 | While a door is being opened, a web request for a door followed by the opening of that door reaches Open with the store untouched. |
| `UseCount.TakeoversAreUnbounded` | src/main.cpp:899-903 | Hence a PIN that is entered before such requests opens its door any number of times, whatever its count, in a run whose clocks never go back and whose rounds each end with the update 5000 ms after the door is closed. |
| `UseCount.OneUseOpensTwice` | src/state_machine.cpp:431-439 | The concrete run: a PIN with one use, on a machine just booted, opens twice and keeps its use. |
| `UseCount.ClosesToHome` | src/state_machine.cpp:169-173 | From Open, the closing of the door and the update 5000 ms later lead to Home, with the store untouched. |
| `UseCount.IdleTick` | src/state_machine.cpp:104-179 | An update at which nothing is due leaves state, grant and store as they are, so updates between the inputs of such a run play no part. |
| `LogQueue.AcceptKeeps` | src/logger.cpp:32-56 | Queueing a record keeps the invariants, also when it overwrites the head during a send. |
| `LogQueue.EndNoticeKeeps` | src/logger.cpp:78-90 | Subtracting the reported drops keeps them, whatever was lost while the notice was sent. |
| `LogQueue.FinishKeeps` | src/logger.cpp:102-108 | Removing the sent head only if it is still the head keeps them. |
| `LogQueue.RunKeeps` | src/logger.cpp:32-110 | They hold after every interleaving of producers and consumer, if fewer than 2^32 records are queued during a send. |
| `LogQueue.QueueIsConserved` | src/logger.cpp:32-110 | In every interleaving: accepted = popped + overwritten + queued, each accepted record is queued, delivered or overwritten, delivered numbers strictly increase, and reported + dropped = overwritten. |
| `LogQueue.BufferedLogTransport.Enqueue` | src/logger.cpp:43-55 | The ring takes exactly the model's step, dropping the oldest record when full. |
| `LogQueue.BufferedLogTransport.Pop` | src/logger.cpp:102-108 | The ring removes its head iff it still has the sent sequence number. |
| `LogQueue.BufferedLogTransport.SendDroppedNotice` | src/logger.cpp:78-90 | Its critical sections, with any producers in between, are a run of the model. |
| `LogQueue.BufferedLogTransport.SendHead` | src/logger.cpp:96-109 | One round of the flush is a run of the model, and says whether to go on. |
| `LogQueue.QueueKeepsLatest` | src/logger.cpp:43-55 | Without a consumer the queue keeps the latest 32 records and counts the others as lost. |
| `LogQueue.FlushStops` | src/logger.cpp:92-110 | Rounds deliver one record each, and stop only because the queue is empty, the link is down or a send failed, or after the last turn. |
| `LogQueue.FlushDrains` | src/logger.cpp:92-110 | With the link up, every send successful and nobody else at work, the rounds deliver all queued records, oldest first, and nothing else changes. |
| `LogQueue.NoticeReports` | src/logger.cpp:78-90 | A notice that is sent reports all drops so far, one that is not reports nothing, and neither delivers a record. |
| `LogQueue.FlushMeans` | src/logger.cpp:92-110 | The outcome of the whole flush: nothing is delivered if the notice fails, at most 32 records otherwise and fewer only for those reasons, and everything if nothing goes wrong. |
| `LogQueue.BufferedLogTransport.FlushQueue` | src/logger.cpp:92-110 | The whole flush is a run of the model with that outcome, whatever the producers and the link do. |
| `LogParams.NumberRoundTrip` | src/log_params.cpp:10-73 | Little-endian bytes give back the number. |
| `LogParams.DecodeOfRecord` | src/log_params.cpp:37-73 | Decoding a stored record gives back the parameter, for every type. |
| `LogParams.GetReturnsAppended` | src/log_params.cpp:37-73 | Reading the bytes of any sequence of appends gives back the i-th parameter, for every i. |
| `LogParams.RoomRule` | src/log_params.cpp:10-35 | There is room for twelve parameters and 160 bytes, three to each parameter besides its value; only reals with all exponent bits set are no numbers. |
| `LogParams.LogParamBlock.Append` | src/log_params.cpp:10-35 | Accepted iff finite and it fits; the accepted parameters are exactly the stored ones; a rejected append changes nothing. |
| `LogParams.LogParamBlock.Get` | src/log_params.cpp:37-73 | The cursor walk finds the index-th record of the block. |
| `LogParams.GetParam` | src/log_params.cpp:37-73 | After any sequence of appends, the i-th accepted parameter, and nothing beyond the last. |
| `LogTemplate.CountCovers` | src/log_messages.cpp:23-39 | For every text: no placeholder lacks a parameter iff the computed count is at most the number of parameters. |
| `LogTemplate.TemplateAgreement` | src/logger.cpp:156-165 | An event that passes the parameter-count check of `emit` never shows `<missing>`, in the long or the short text. |
| `LogPieces.ExpansionShowsPieces` | src/log_params.cpp:116-136 | The expansion of a template, written as characters and placeholders 1 to 12, shows its pieces one after the other. |
| `LogPieces.ExpansionIsCompleteIff` | src/log_params.cpp:116-136 | It is complete iff every placeholder has a parameter. |
| `LogPieces.CountIsLargest` | src/log_messages.cpp:23-39 | The computed parameter count is the largest placeholder number. |
| `LogPieces.MessageShowsPieces` | src/logger.cpp:156-165 | An event with as many parameters as the largest number in both texts shows all pieces of the text asked for. |
| `LogPieces.BadHoleIsMissing` | src/log_params.cpp:118-134 | A placeholder number 0 or above 12 shows `<missing>` and spoils the count. |
| `LogPieces.OpenHoleIsMissing` | src/log_params.cpp:118-134 | A placeholder that is never closed shows `<missing>` for all the rest and spoils the count. |
| `LogPieces.FallbackNamesId` | src/log_params.cpp:104-108 | The fallback text begins with the id in at least three decimal digits. |
| `LogPieces.FallbackGrows` | src/log_params.cpp:109-115 | Each parameter adds its number and its text to it. |
| `LogTemplate.FindLogMessage` | src/log_messages.cpp:12-21 | Binary search in a sorted table: finds the message iff there is one. |
| `LogTemplate.LogMessageParamCount` | src/log_messages.cpp:23-39 | The scanning loops compute the largest index in both texts, or the marker for a malformed one. |
| `LogTemplate.FormatLogMessage` | src/log_params.cpp:100-137 | The text of the one message with the id, or the fallback naming id and parameters, cut to capacity − 1; if the event passed the count check, true iff it was not cut; false for no capacity. |
| `LogTemplate.FormatUnknown` | src/log_params.cpp:104-115 | The loop over the parameters writes the fallback text. |
| `LogTemplate.FormatText` | src/log_params.cpp:116-136 | The output is the full expansion cut to capacity − 1 and terminated; true iff nothing was missing or cut. |
| `LogTemplate.ReadHole` | src/log_params.cpp:118-134 | The parameter of a placeholder iff it is well-formed and present, and where to go on. |
| `LogTemplate.Writer.Put` | src/log_params.cpp:76-97 | The buffer holds what was put so far, cut to its capacity. |
| `LogEscape.EscapeLength` | src/log_serialization.cpp:38-44 | The expanded length is the length plus five per control byte. |
| `LogEscape.EscapeHasNoControls` | src/log_serialization.cpp:37-57 | No control byte is left. |
| `LogEscape.EscapeOfControl` | src/log_serialization.cpp:47-55 | A control byte becomes `\u00` and its two lower-case hexadecimal digits. |
| `LogEscape.EscapeIsIdentity` | src/log_serialization.cpp:37-57 | A text without control bytes is left alone. |
| `LogEscape.ExpandBackward` | src/log_serialization.cpp:45-56 | The backward loop overwrites no unread byte and leaves exactly the expanded text. |
| `LogEscape.ExpandInPlace` | src/log_serialization.cpp:37-57 | Succeeds iff the expanded text and its terminator fit; then the buffer holds it, otherwise it is untouched. |
| `LogEscape.EscapeKeepsMeaning` | src/log_serialization.cpp:36-57 | A reader of the JSON text sees the same bytes before and after iff no escape sequence consists of a backslash and a raw control byte (section 7 of RFC 8259). |
| `CredDates.DayNumberIncreases` | src/cred_protocol.cpp:66-74 | The day count of the leap-year arithmetic strictly follows calendar order. |
| `CredDates.DayNumberCounts` | src/cred_protocol.cpp:66-74 | Day numbers count the days of the Gregorian calendar from 1970-01-01, each date having the number after that of the day before. |
| `CredDates.ParseRule` | src/cred_protocol.cpp:77-95 | Exactly the dates of that calendar from 1970 to 9999 are accepted, as the first or last second of their day, besides the two texts for no limit. |
| `CredDates.OtherTextIsRefused` | src/cred_protocol.cpp:77-95 | Nothing else is accepted but the empty text, which means no limit. |
| `CredDates.FormatRule` | src/cred_protocol.cpp:97-109 | A time stamp shows the date of its day. |
| `CredDates.FormatLimits` | src/cred_protocol.cpp:97-109 | 0 shows no limit, and stamps from the year 10000 on show 9999-12-31. |
| `CredDates.YearFromIsRight` | src/cred_protocol.cpp:97-109 | The year search ends at the year that contains the day. |
| `CredDates.MonthFromIsRight` | src/cred_protocol.cpp:97-109 | The month search ends at the month that contains the day. |
| `CredDates.DateOfIsRight` | src/cred_protocol.cpp:97-109 | Together they give the one valid date with that day number. |
| `CredDates.DateRoundTrip` | src/cred_protocol.cpp:77-109 | For every valid date from 1970 to 9999, formatting the parsed date gives it back iff it is not the start of 1970-01-01. |
| `CredDates.StampRoundTrip` | src/cred_protocol.cpp:77-109 | A formatted time stamp parses to the start or the end of its day, or to "unlimited". |
| `CredDates.ParseIncreases` | src/cred_protocol.cpp:77-95 | Parsing is strictly monotone in date order, apart from "unlimited". |
| `CredDates.ParseDate` | src/cred_protocol.cpp:77-95 | The loop over the text accepts exactly the valid dates (full-date of section 5.6 of RFC 3339) and the sentinels. |
| `CredDates.FormatDate` | src/cred_protocol.cpp:97-109 | The search loops compute the text that the round trips are about. |
| `DoorContacts.FlipIsDebounced` | src/gpio_hal.cpp:75-96 | Over any poll sequence the accepted level flips only if every poll of a stretch of at least 100 ms of real time, up to the flip, saw the new level. |
| `DoorContacts.SteadyIsAccepted` | src/gpio_hal.cpp:75-96 | Conversely, at any uptime, a level seen throughout such a stretch is accepted after it, if consecutive polls are at most one clock wrap less 100 ms apart. |
| `DoorContacts.GpioContacts.constructor` | src/gpio_hal.cpp:207-220 | Each contact starts with its level accepted and sampled; a door without a contact counts as low. |
| `DoorContacts.GpioContacts.UpdateDoorStates` | src/gpio_hal.cpp:75-96 | Every contact takes its debounce step, and exactly the logical doors 0 to 254 with a flip are notified, once each, in ascending order. |
| `DoorContacts.GpioContacts.ReadDoorState` | src/gpio_hal.cpp:32-47 | Open or closed iff all contacts of the door agree on it, mixed iff they differ, unknown iff it has none. |
| `LockTimers.ScheduleKeeps` | src/timer.cpp:24-60 | Scheduling keeps the schedulings in active slots apart. |
| `LockTimers.FireKeeps` | src/timer.cpp:76-95 | A firing is never early, and a one-shot that fired is in no slot and does not fire again. |
| `LockTimers.OpenKeeps` | src/gpio_hal.cpp:14-29 | An opening that finds a free slot leaves every energised lock with an active one-shot deactivation timer started at its last pulse. |
| `LockTimers.UpdateKeeps` | src/timer.cpp:76-95 | So does an update, after which no one-shot is due. |
| `LockTimers.RunKeeps` | src/timer.cpp:15-95 | All of it holds in every state of every run in which each opening finds a free slot, no deactivation timer is cancelled and the timers are updated more than once per clock wrap. |
| `LockTimers.PulseIsBounded` | src/gpio_hal.cpp:98-111 | For an opening that found a free slot, whatever the others did: the lock is off after any update at least 500 ms after the pulse, unless it was pulsed again. |
| `LockTimers.OneShotsFireOnce` | src/timer.cpp:76-95 | In every run in clock order no one-shot scheduling fires twice, and none early. |
| `LockTimers.ScheduleRule` | src/timer.cpp:24-60 | A timer is accepted iff a slot is free, its action is not 0 and a repeating one has an interval; it takes the first free slot. |
| `LockTimers.CancelRule` | src/timer.cpp:62-73 | Cancelling ends exactly the active timer of that slot. |
| `LockTimers.UpdateRule` | src/timer.cpp:76-95 | At an update an active timer fires iff its interval has passed; then it restarts from that update if it repeats, and ends otherwise. |
| `LockTimers.RepeatingKeepsFiring` | src/timer.cpp:76-95 | After any updates a repeating timer is active with the same interval and action and not overdue. |
| `LockTimers.OpeningRule` | src/gpio_hal.cpp:14-29 | An opening energises exactly the locks of its logical door that have a pin and asks for one deactivation of that door after 500 ms; without such a lock it does nothing. |
| `LockTimers.LockIsReleasedIff` | src/gpio_hal.cpp:24-27 | An update after an opening releases the lock iff the opening found a free slot and 500 ms show on the clock, or an older deactivation timer that drives the pin is due. |
| `LockTimers.FullTimersLeaveLockOn` | src/gpio_hal.cpp:24-27 | Without a free slot the lock stays on through every sequence of updates iff no active deactivation timer drives it. |
| `LockTimers.TimerManager.FindFreeSlot` | src/timer.cpp:15-22 | The first inactive slot, or −1. |
| `LockTimers.TimerManager.ScheduleOnce` | src/timer.cpp:24-41 | Refused iff no slot is free or the action is 0; the slots take the model's step. |
| `LockTimers.TimerManager.ScheduleRepeat` | src/timer.cpp:43-60 | The same, and refused for interval 0. |
| `LockTimers.TimerManager.CancelTimer` | src/timer.cpp:62-73 | Only an active timer in range is cancelled. |
| `LockTimers.TimerManager.Update` | src/timer.cpp:76-95 | The loop over the slots, with the handler of due actions, takes exactly the model's step on timers and locks. |
| `LockTimers.GpioLocks.OpenDoor` | src/gpio_hal.cpp:14-29 | Pulses exactly the locks of the logical door, schedules the end of the pulse, and reports the door or "unknown". |
| `LockTimers.GpioLocks.LockDeactivate` | src/gpio_hal.cpp:98-111 | Releases exactly the locks of the logical door. |

## Left out

- Flash writes that fail without a loss of power; the code ignores the results of most of them.
- Access to the store from the web task while another operation runs: store operations are atomic to each other.
- The reset of the legacy record format at boot, and stored records of a wrong size or type.
- The unused repair helpers `repairTailInsert`, `repairInterruptedDelete` and `repairDeleteGap`, which recovery never reaches.
- Which credentials survive the recovery of a store with several independent faults: what is proved for arbitrary
  stores is when recovery accepts them and when the boot ends.
- Record fields that nothing reads, null texts, and what stands behind the terminator of a stored text.
- A negative wall clock, and a clock that goes back, in the theorem on use counts.
- `CredStorageObject.CredStorage.UsedCred`: takes the cached record by value where the code passes `removeCred` a
  reference into the cache it erases from.
- Display refresh, the digits of the presence code, the camera, and callbacks that re-enter the state machine; a
  re-entrant event is an event that follows.
- The pin of the ambient light is taken to be configured.
- `LogTemplate.FormatLogMessage`: the rendering of a parameter is an arbitrary function, so the digits of numbers and
  the `%.17g` form of reals are not modelled.
- `LogQueue.BufferedLogTransport.Enqueue`: begins after the checks on the source name and the parameter block.
- The timer argument is the door number, not its decimal text.
- The JSON library, `ParamChecks::integer`, the other fields of the credential protocol, and request handling.
- Key debouncing, scanner frames, configuration, provisioning, the VPN, websockets and the user interface.
- Some routines are split into several methods here: `CredStorage` (`Rewrite`, `CompleteDelete`, `RepairOrReset`,
  `EvictFromCache`), `LogParamBlock` (`SkipRecord`, `ReadRecord`), `BoxStateMachine` (`Conclude`, `StartEntry`, `HandleHomeKey`, `OnEnter` and others), the log flush
  and the template expander.
