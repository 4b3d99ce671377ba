# Verified model of SIPp's scenario engine

SIPp plays SIP call scenarios: lists of messages to send and to wait for. This project models the parts
of it that carry state or promise something over a whole run, and proves those promises in Dafny.
`dafny verify dfyconfig.toml` checks everything.

| file | part of the program |
|---|---|
| `Scenario.dfy` | scenario entries and the load-time check on optional receives |
| `LooseSequence.dfy`, `LooseRuns.dfy`, `LooseHangs.dfy`, `LooseArrivals.dfy`, `LooseCall.dfy` | the loose message sequence of `-mc` mode: one step, whole runs, when a call can go on, what one arrival and one SEND do, the call object |
| `Retransmission.dfy` | the UDP retransmission timer of a call |
| `OpenTask.dfy` | the generator that opens calls: rate mode, user mode, limits, user-id pool |
| `RtpPacing.dfy` | the pacing of a replayed RTP stream and the time-value macros |
| `CompositeDocument.dfy` | the index from flattened scenario lines back to included files |
| `Bits.dfy`, `Rijndael.dfy`, `RijndaelCipher.dfy`, `Fips197.dfy`, `Milenage.dfy`, `Base64.dfy`, `Aka.dfy` | AKA authentication, from bytes and exclusive or up to the answer to a challenge |
| `Delimited.dfy`, `CsvIndex.dfy` | injection files: fields and the key index |
| `RouteSet.dfy` | route set and remote target of a dialog |
| `CleanCdata.dfy` | clean-up of CDATA text |

**Shape.** What one step does is a function on immutable states, with its own properties proved as
lemmas, most of them over every run. The objects the program updates in place are classes; each method
is proved to take the state to exactly the one the step function gives. So the whole-run lemmas speak
about the classes too. What a step function gives is also said outright, in numbers, bytes and
positions, by lemmas that do not lean on its parts.

**Loose message sequence.** In `-mc` mode messages of different dialogs may arrive out of order. Every
reachable state satisfies one invariant (`LooseSequence.Inv`): everything before the index is done
exactly once and in order, nothing ahead of it was sent, no dialog was overtaken, and a waiting call
waits for a receive that has not come. The premises are those of the mode: a linear scenario that passes
the loader's check on optional receives, one call, optional receives that are not global, and arrivals
during a pause ignored (`-pause_msg_ign`). Without that last option the invariant can be lost
(`PauseArrivalKeepsIff`); that alone does not hang the call. When a call can still go on is said
exactly, for every reachable state with or without the option, by `CallMovesIff`, and for an arrival
during a pause by `UnsafeArrivalHangsIff`; `PauseArrivalsCanHangTheCall` gives a scenario that waits for
ever. The loader's second check on optional messages is not needed by any proof.

**Places where a promise fails.** The code is modelled as it is, and the exact condition is proved:
arrivals during a pause (`LooseHangs.PauseArrivalKeepsIff`, `UnsafeArrivalHangsIff`); a provisional
reply that starts a timer which was off (`Retransmission.OffUntilArmed`, `ProvisionalStartsTheTimer`); a
lowered number of users, after which a user can be issued twice (`OpenTask.NoIdTwiceIff`,
`LoweringIssuesAnIdTwice`); a first RTP timestamp of zero (`RtpPacing.PacedFromFirstIff`,
`ZeroTimestampLosesAStep`); a replaced line in an injection file (`CsvIndex.ReplaceKeepsLatestIff`,
`ReplaceCanLoseAKey`); an empty Record-Route entry beside a strict router
(`RouteSet.ResponseMeetsStandardIff`, `ResponseCanLoseAnEntry`) and a Record-Route list taken from a
request (`RouteSet.RequestMeetsStandardIff`, `RequestTargetCanBeTwo`); the "Empty cdata" error, which
fires when exactly one character is left and not when none is (`CleanCdata.CleanCdata`); the nonce
length check of AKA, which counts padding and the terminating zero (`Aka.LengthCheck`); and base64
without padding, which loses a byte (`Base64.UnpaddedRoundTripIff`) and with it the network's code
(`Aka.UnpaddedChallenge`). Where a comment in the source promises otherwise, the code was followed.

## Model

| member | source | states |
|---|---|---|
| `Scenario.LoadCheck` | src/scenario.cpp:656-662 | the loader accepts a list exactly when every optional receive is followed by another receive and only optional receives leave the state machine in place |
| `LooseSequence.DialogOf` | src/call.cpp:139-152 | a Call-ID belongs to the first dialog in key order that holds it, to none (-2) if empty, "-1" or unknown |
| `LooseSequence.FirstCandidate` | src/call.cpp:4012-4086 | the first entry a message can be credited to: it matches, is not already received if mandatory, and no entry of its dialog before it is an unsent SEND or an unreceived mandatory receive |
| `LooseSequence.LastInSequenceIsLargest` | src/call.cpp:4641-4703 | the jump stays at an awaited receive and otherwise goes to the largest entry, the start or a received mandatory one, reached over optional or received receives only |
| `LooseSequence.JumpPasses` | src/call.cpp:4663-4699 | no jump steps over a SEND or an unreceived mandatory receive |
| `LooseSequence.FrontAtBreak` | src/scenario.cpp:656-662 | wherever a jump cannot go on at a receive, the next mandatory entry is a receive still to come; this is what the load-time check is for |
| `LooseSequence.RunKeeps` | src/call.cpp:1806-1848 | executing on from a place reached by a jump ends in a state that satisfies the invariant |
| `LooseSequence.CreditKeeps` | src/call.cpp:4394-4397 | crediting the entry found keeps every account and the order within each dialog |
| `LooseSequence.ArrivalAtReceiveKeeps` | src/call.cpp:4536-4577 | any message arriving while the call waits at a receive keeps the invariant |
| `LooseRuns.ReachableStates` | src/call.cpp:4012-4577 | every state of every run satisfies the invariant |
| `LooseRuns.NothingSkippedNothingRepeated` | src/call.cpp:4012-4577 | at every moment of every run: mandatory receives before the index were credited exactly once and none anywhere twice; the messages sent are exactly the SEND entries before the index, in order; a mandatory receive taken early has nothing of its dialog left before it |
| `LooseRuns.CompletedRun` | src/call.cpp:1806-1848 | when the call ends, every mandatory receive was credited exactly once and every SEND was performed exactly once, in scenario order |
| `LooseRuns.AwaitedArrivalAdvances` | src/call.cpp:4543-4577 | the awaited message moves the index strictly past its entry, unless an earlier optional entry matches it |
| `LooseRuns.WaitingStates` | src/call.cpp:4543-4577 | in every reachable waiting state the first mandatory entry is an unreceived receive, and its arrival moves the call past it |
| `LooseRuns.CallIdsAreWriteOnce` | src/call.cpp:4283-4287 | a dialog's Call-ID, once set, never changes over any run |
| `LooseRuns.ArrivalNeverShares` | src/call.cpp:3715-3726 | from any state whatever, a received message never makes two numbered dialogs share a Call-ID that no negative dialog (the call's own) holds |
| `LooseRuns.OnlySendsShareCallIds` | src/call.cpp:4283-4287 | over every run of every scenario, with no premise on scenario or peer: if two numbered dialogs share a Call-ID in the end, there is a SEND of the run whose performing made them |
| `LooseRuns.CallIdsStayUnique` | src/call.cpp:3803-3807 | over every run, if scenario and peer do not reuse Call-IDs across dialogs, each belongs to at most one numbered dialog |
| `LooseRuns.FitsIff` | src/call.cpp:3709-3810 | some message can be matched to a receive if and only if its dialog has no number or shares its Call-ID with no lower-numbered dialog (unless the call itself holds that id) |
| `LooseRuns.EnablingEvent` | src/call.cpp:4543-4577 | from every state with the invariant that is not the end, if the awaited receive can be matched in that sense and no Call-ID still to be sent is in use, some message or pause expiry moves the index |
| `LooseRuns.NeverStuck` | src/call.cpp:4543-4577 | from every reachable state some continuation completes the scenario, if the scenario writes no Call-ID into two dialogs and the peer quotes none before it was sent |
| `LooseHangs.RunRests` | src/call.cpp:4543-4577 | in every reachable state, pauses ignored or not, the call has ended, is in a pause, or waits at a receive from which no jump is left to make |
| `LooseHangs.CallMovesIff` | src/call.cpp:4012-4577 | for every reachable state of every run, pauses ignored or not: something can still happen that moves the call if and only if it is in a pause or the first entry it cannot step over is a receive that some message can be matched to |
| `LooseHangs.HungForEver` | src/call.cpp:4655-4703 | a hung call stays where it is and sends nothing, whatever happens |
| `LooseHangs.PauseArrivalKeepsIff` | src/call.cpp:3850-3850 | an arrival during a pause that is not ignored keeps the invariant if and only if the jump goes nowhere or at least as far as the entry credited |
| `LooseHangs.UnsafeArrivalHangsIff` | src/call.cpp:4536-4577 | one that does not leaves the call at a message it already has, and hangs it if and only if the first entry behind that cannot be stepped over is not a receive some message can be matched to |
| `LooseHangs.HangingScenarioLoads` | src/scenario.cpp:656-662 | the loader accepts the scenario of the next two rows |
| `LooseHangs.HangReached` | src/call.cpp:4536-4577 | a run, pauses not ignored, that leaves the call in such a place |
| `LooseHangs.PauseArrivalsCanHangTheCall` | src/call.cpp:4536-4577 | whatever follows that run, the SEND is never performed |
| `LooseArrivals.OwnerOfCallId` | src/call.cpp:139-152 | the owner of a Call-ID is the lowest dialog that holds it; the empty one, "-1" and an unknown one have none |
| `LooseArrivals.NoDialogTakesAny` | src/call.cpp:3709-3810 | an entry without a dialog number takes a message of any Call-ID that fits its pattern |
| `LooseArrivals.BoundDialogTakesItsOwn` | src/call.cpp:3709-3810 | a dialog with a Call-ID takes no other, and takes its own if it owns it; one without takes an unknown Call-ID, and none that another dialog owns |
| `LooseArrivals.SendBinds` | src/call.cpp:2009-2010 | a SEND that is performed gives its dialog the Call-ID it was sent with, unless the dialog has one, which it keeps, whatever is executed after it |
| `LooseArrivals.OwnIdStays` | src/call.cpp:694-715 | in every run the call's own id stays with dialog -1 |
| `LooseArrivals.ArrivalIsCredited` | src/call.cpp:4012-4086 | a message goes to the first entry that matches and is optional, however often it has come, or has not come yet, and that has no SEND and no missing mandatory receive of its dialog before it; that counter goes up by one, no other changes, and the dialog then has the message's Call-ID |
| `LooseArrivals.ArrivalIsLeft` | src/call.cpp:4012-4086 | a message no entry takes changes nothing |
| `LooseArrivals.OptionalArrivalStays` | src/call.cpp:4536-4577 | an optional message, the first time or again, leaves the call where it waits |
| `LooseArrivals.NoAdvanceStays` | src/call.cpp:4519-4522 | a message for an entry that leaves the state machine in place never moves the call, at a receive or a pause |
| `LooseArrivals.ReachableArrival` | src/call.cpp:4012-4577 | the same in every reachable state that waits at a receive, pauses ignored or not |
| `LooseCall.Call.constructor` | src/call.cpp:694-715 | a new call: nothing received, the default dialog holding the call's own id |
| `LooseCall.Call.GetDialogFrCallid` | src/call.cpp:139-152 | finds the dialog that `DialogOf` specifies |
| `LooseCall.Call.MatchesScenario` | src/call.cpp:3709-3810 | accepts a packet for an entry exactly when pattern, dialog and Call-ID agree |
| `LooseCall.Call.Search` | src/call.cpp:4012-4086 | the forward search with its set of closed dialogs finds `FirstCandidate` |
| `LooseCall.Call.GetLastInsequenceReceivedMessage` | src/call.cpp:4641-4703 | the forward scan returns the jump of `LastInSequence` |
| `LooseCall.Call.Next` | src/call.cpp:1806-1848 | leaving an entry takes the call to the next place it waits |
| `LooseCall.Call.Run` | src/call.cpp:1850-2117 | executing entries until a receive, a pause or the end |
| `LooseCall.Call.Resume` | src/call.cpp:4536-4577 | how far the index moves after a message has been credited |
| `LooseCall.Call.ProcessIncoming` | src/call.cpp:3820-4577 | one arrival: search, Call-ID binding, credit and advance take the call to the state `Incoming` specifies |
| `LooseCall.Call.PauseExpired` | src/call.cpp:2223-2240 | the end of a pause moves the call on |
| `Retransmission.Timer.ExecuteSend` | src/call.cpp:2034-2043 | a message goes out only while the timer is off, and arms it when it has a delay and the transport is UDP |
| `Retransmission.Timer.Run` | src/call.cpp:2159-2221 | a look at the timer resends, gives up or does nothing, with the new delay and due time |
| `Retransmission.Timer.ProcessIncoming` | src/call.cpp:4431-4450 | which incoming messages stop the timer, and which put it to T2 |
| `Retransmission.SendArms` | src/call.cpp:2034-2040 | sending over UDP with a delay arms the timer for the end of that delay |
| `Retransmission.BackoffWhileArmed` | src/call.cpp:2159-2221 | until something answers: no new message goes out, resend k sets delay d * 2^k (INVITE, in 32-bit arithmetic) or min(d * 2^k, T2), and there are at most as many resends as the limits allow |
| `Retransmission.InviteWaits` | src/call.cpp:2207-2219 | the waits of an INVITE add up to d * (2^(k+1) - 1), plus one tick a resend |
| `Retransmission.NeverDueEarly` | src/call.cpp:2160-2219 | no resend falls due before the sum of all delays so far has passed |
| `Retransmission.NeverGivesUpEarly` | src/call.cpp:2160-2205 | however a message is given up, by ending the call or by a jump to its time-out label, all its resends were made and the wait after the last one has passed |
| `Retransmission.InviteGivesUp` | src/call.cpp:2160-2205 | an INVITE is given up, in either way, only with all n resends made and more than d * (2^(n+1) - 1) ticks gone |
| `Retransmission.GivesUpOnTime` | src/call.cpp:2160-2221 | the bound is met: a call woken on time resends at every wake-up up to the limit and gives up at the next |
| `Retransmission.ProvisionalPinsT2` | src/call.cpp:4436-4449 | after a provisional reply a non-INVITE is resent every T2 until a final response |
| `Retransmission.OffUntilArmed` | src/call.cpp:4431-4449 | over any run, a stopped timer stays off if and only if no event arms it: a retransmittable message, or a provisional reply to a non-INVITE |
| `Retransmission.ProvisionalStartsTheTimer` | src/call.cpp:4444-4448 | a run over TCP in which such a reply causes a resend |
| `Retransmission.AnswerStopsTheTimer` | src/call.cpp:4431-4450 | a final reply, a provisional one to an INVITE, an ACK, CANCEL, BYE or PRACK behind the last message turns the timer off; other requests and earlier entries leave it; a provisional reply to another method sets it to T2 |
| `Retransmission.AnsweredThenFree` | src/call.cpp:2034-2043 | from an answer on, until something arms the timer again, nothing is resent and the next message goes out |
| `Retransmission.OffIsQuiet` | src/call.cpp:2034-2043 | with the timer off a look at it does nothing, and a message goes out and arms it exactly when it has a delay and goes over UDP |
| `Retransmission.NotYetDue` | src/call.cpp:2159-2161 | up to the tick it is set to, the timer waits |
| `Retransmission.GivenUpMeans` | src/call.cpp:2163-2205 | past the limit the call is over for good, or, with a time-out label, goes on with the timer off |
| `Retransmission.LimitIs` | src/call.cpp:2163-2169 | a due message is resent exactly while the resends are fewer than both the limit of its method and the general one |
| `OpenTask.Task.constructor` | src/sipp.cpp:3286-3289 | at the start the user ids 1 to `users` are free and the limit is the number of users |
| `OpenTask.Task.CallsToOpen` | src/opentask.cpp:107-130 | the number of calls to open after both caps, unsigned arithmetic included |
| `OpenTask.Task.OpenCalls` | src/opentask.cpp:135-170 | opens that many calls, each with the user at the back of the free list, unless the clock moves on first |
| `OpenTask.Task.Run` | src/opentask.cpp:88-186 | one activation, and whether it was the last |
| `OpenTask.Task.SetRate` | src/opentask.cpp:207-234 | a change of rate starts the count anew and sets the default limit |
| `OpenTask.Task.SetUsers` | src/opentask.cpp:236-271 | a change of users enlists retired ids first, then new ones |
| `OpenTask.Task.SetPaused` | src/opentask.cpp:188-205 | coming out of a pause counts as setting rate or users anew |
| `OpenTask.Task.FreeUser` | src/opentask.cpp:273-284 | a returned user is free, or retired if too many calls are live |
| `OpenTask.Task.EndCall` | src/call.cpp:915-917 | the end of a call gives its user back after the counter went down |
| `OpenTask.TotalNeverExceeds` | src/opentask.cpp:116-120 | over every run that starts at or below `stop_after`, the total never exceeds it |
| `OpenTask.OpensWithinLimit` | src/opentask.cpp:122-126 | no activation raises the number of live calls above a non-zero limit |
| `OpenTask.OpensAllItMay` | src/opentask.cpp:107-130 | an activation computes the largest number of calls that are due and stay within both limits, none if the live calls are above theirs already |
| `OpenTask.CapsAreMet` | src/opentask.cpp:116-126 | where a limit binds it is met exactly: the total reaches `stop_after`, the live calls reach the limit on open calls |
| `OpenTask.UsersAreServed` | src/opentask.cpp:107-109 | in user mode an activation no limit holds back brings the live calls up to the number of users |
| `OpenTask.ActivationCounts` | src/opentask.cpp:135-170 | every call opened is live and counted in the total and since the last change of rate; in user mode it takes a user from the back of the free list |
| `OpenTask.LimitEndsIt` | src/opentask.cpp:180-183 | the activation that finds the total limit met opens nothing and is the last one, and no earlier one is |
| `OpenTask.RateNeverExceeded` | src/opentask.cpp:110-114 | over every run with a monotone clock, calls since the last change of rate never exceed floor(elapsed * rate / period) |
| `OpenTask.QuotaMet` | src/opentask.cpp:110-114 | an activation that is neither capped nor cut short meets that number exactly |
| `OpenTask.RateRestarts` | src/opentask.cpp:207-232 | after a change of rate the calls due are those of the new rate over the time since, a negative rate counting as zero |
| `OpenTask.UnpausingRestarts` | src/opentask.cpp:188-205 | and so they are after a pause, with the rate there was |
| `OpenTask.DefaultLimit` | src/opentask.cpp:207-232 | the limit on live calls is three times the calls of the longer of a second and the scenario, rounded down, at least one, unless a person set it |
| `OpenTask.EnoughFree` | src/opentask.cpp:138-141 | in a sound pool the free list has an id for every call to open |
| `OpenTask.FirstPool` | src/sipp.cpp:3286-3289 | the pool of the command line is sound |
| `OpenTask.PoolKeptIffNotLowered` | src/opentask.cpp:236-271 | setting the number of users keeps the ids exactly 1 to `users` if and only if it is not lowered |
| `OpenTask.NoIdTwiceKeptIff` | src/opentask.cpp:236-271 | setting the number of users keeps every id single, among free, busy and retired ones, if and only if no id it makes up is already there |
| `OpenTask.NoIdTwiceIff` | src/opentask.cpp:88-284 | over every run, no id is ever in two places if and only if every change of the number of users makes up fresh ids only |
| `OpenTask.LoweringIssuesAnIdTwice` | src/opentask.cpp:236-271 | a run from two users over one to two again, after which two live calls have the same user |
| `OpenTask.PoolStaysSound` | src/opentask.cpp:88-284 | over every run in user mode that never lowers the users, free and busy ids are exactly 1 to `users`, each once, and none is retired |
| `OpenTask.RaisedByOne` | src/opentask.cpp:248-268 | one user more takes the id retired longest ago, if there is one, else the next number |
| `OpenTask.EndGivesBack` | src/opentask.cpp:273-284 | at the end of a call its id is retired if still more calls are live than may be, and free otherwise |
| `OpenTask.UsersTakeTurns` | src/opentask.cpp:273-284 | an id given back is issued again only after all that were free before it |
| `RtpPacing.TimerAdd` | src/send_packets.hpp:68-77 | adds microseconds, result in normal form |
| `RtpPacing.TimerSub` | src/send_packets.hpp:80-89 | subtracts microseconds, result in normal form |
| `RtpPacing.Sender.DoSleep` | src/send_packets.cpp:356-398 | adds the step from the last packet to what should have been slept and asks for what is left of it |
| `RtpPacing.Sender.SendPackets` | src/send_packets.cpp:288-342 | the sleep asked for before every packet of a stream is max(0, its way from the packet its count starts at - the time gone since) |
| `RtpPacing.RiseTelescopes` | src/send_packets.cpp:374-386 | for timestamps that never step back that way is ts_k - ts_0, counted from the first non-zero timestamp: no drift |
| `RtpPacing.StepsAddUp` | src/send_packets.cpp:374-386 | in any stream a packet stamped no later than the one before is aimed where that one was, one stamped later that much further on |
| `RtpPacing.PacedFromFirstIff` | src/send_packets.cpp:366-390 | for non-decreasing timestamps, on every clock and for every packet the sleep asked for is max(0, (ts_k - ts_0) - (now_k - now_0)), if and only if the first timestamp is not zero or all are |
| `RtpPacing.ZeroTimestampLosesAStep` | src/send_packets.cpp:366-372 | timestamps 0 and 5: the second packet is not held back |
| `RtpPacing.NeverEarly` | src/send_packets.cpp:388-390 | a sender that sleeps at least as asked lets no packet out ahead of its capture time; one that sleeps exactly as asked is on time unless already late |
| `CompositeDocument.Replay` | src/CompositeDocument.hpp:75-82 | the stack a history leads to: depth is files entered less files left, composite line is newlines plus one |
| `CompositeDocument.Images` | src/CompositeDocument.cpp:58-89 | the last image of the list is the live stack |
| `CompositeDocument.FinishedLineStays` | src/CompositeDocument.cpp:106-127 | recording more changes the answer for no finished line |
| `CompositeDocument.LookupAgreesWithReplay` | src/CompositeDocument.cpp:101-134 | the query for a finished line answers with the stack live just before its newline, or, when the line began by leaving a file, the deeper stack as it stood then |
| `CompositeDocument.NestedReplay` | src/CompositeDocument.cpp:314-341 | a nested stretch leaves the files already open in place and adds what it would build alone |
| `CompositeDocument.BracketedStretchRestores` | src/CompositeDocument.cpp:314-341 | a well-bracketed stretch restores the enclosing bookmarks and lines exactly; the composite line grows by its newlines |
| `CompositeDocument.StretchGrowsAlike` | src/CompositeDocument.cpp:314-319 | within a stretch of newlines composite line and top document's line grow alike |
| `CompositeDocument.EnteredFileCountsFromOne` | src/CompositeDocument.hpp:94-95 | a file just entered stands on top under its name, at line 1 plus the newlines read in it since |
| `CompositeDocument.LineBlamesItsFile` | src/CompositeDocument.cpp:101-134 | the query for a line read directly in a file answers with that file and its own line number |
| `CompositeDocument.LineAfterReturnBlamesTheOuterFile` | src/CompositeDocument.cpp:101-134 | a line read in a file after another one was included in it is blamed on it, with the number the line has in that file |
| `CompositeDocument.LineAfterEndBlamesTheFileLeft` | src/CompositeDocument.cpp:112-117 | the newline right behind the end of a file is blamed on the file that was left, at the line it ended on |
| `CompositeDocument.BytesOfLine` | src/CompositeDocument.cpp:205-218 | with ascending offsets, a byte belongs to line n exactly when it lies behind the newline of line n - 1 and not behind that of line n |
| `CompositeDocument.Index.IncludeFile` | src/CompositeDocument.cpp:58-69 | records that a file is entered |
| `CompositeDocument.Index.IncrLine` | src/CompositeDocument.cpp:77-81 | records a newline and returns the file's new line |
| `CompositeDocument.Index.EndIncludeFile` | src/CompositeDocument.cpp:83-89 | records that a file is left |
| `CompositeDocument.Index.Reset` | src/CompositeDocument.cpp:276-284 | an empty history |
| `CompositeDocument.Index.DocStackFromCompositeLineNumber` | src/CompositeDocument.cpp:101-134 | the loop returns the stack replay gives for a finished line, the empty one beyond |
| `CompositeDocument.Index.CompositeLineNumberFromIndex` | src/CompositeDocument.cpp:205-218 | the line whose newline is the first at or after a byte |
| `CompositeDocument.Index.StackFromIndex` | src/CompositeDocument.cpp:224-237 | the live stack past the last newline, else the stack of the byte's line |
| `Rijndael.ValueXor` | src/rijndael.cpp:356-367 | exclusive or of 32-bit words is that of the columns they hold |
| `Rijndael.ValueRotates` | src/rijndael.cpp:28-30 | the word rotations move the four bytes round |
| `Rijndael.ValueBytes` | src/rijndael.cpp:34-37 | the byte extractions pick the four bytes |
| `Rijndael.FTablesMix` | src/rijndael.cpp:356-360 | four table lookups and three exclusive ors of words give the word of SubBytes and MixColumns on a shifted column |
| `Rijndael.LTablesSub` | src/rijndael.cpp:370-381 | the last-round tables give the word of SubBytes alone |
| `Rijndael.RndConIsRcon` | src/rijndael.cpp:69-71 | the listed round constants are the words of those of FIPS 197 |
| `RijndaelCipher.Rijndael128.KeySchedule` | src/rijndael.cpp:388-410 | the 44 words of the expanded key are the little-endian words of KeyExpansion of FIPS 197, section 5.2, for every key |
| `RijndaelCipher.Rijndael128.Encrypt` | src/rijndael.cpp:413-436 | computed on 32-bit words from memory to memory, the output block is Cipher of FIPS 197, section 5.1, for every key and block |
| `Fips197.DoublingReduces` | src/rijndael.cpp:356-367 | doubling in the field is a shift, reduced by the polynomial 11B |
| `Fips197.MixedByte` | src/rijndael.cpp:356-367 | each byte of a mixed column, with the coefficients 2, 3, 1, 1 from the diagonal on |
| `Fips197.RoundByte` | src/rijndael.cpp:413-436 | one formula for every byte of the state after every round: four substituted bytes of the shifted columns, their multiples, and the byte of the round key |
| `Fips197.CipherByte` | src/rijndael.cpp:413-436 | one formula for every byte of the state before the first round and of the output |
| `Fips197.ScheduleBytes` | src/rijndael.cpp:388-410 | all 44 words of the key schedule, byte by byte: each fourth one turned, substituted and masked with a constant written as a number |
| `Fips197.FifthWord` | src/rijndael.cpp:388-410 | word 4 from the bytes of the key, for every S-box |
| `Fips197.KeyExample` | src/rijndael.cpp:388-410 | the word of FIPS 197, appendix A.1: a0fafe17 |
| `Fips197.ExpandedKeyBytes` | src/rijndael.cpp:388-410 | the same recurrence for every byte of the expanded key in memory after `KeySchedule` |
| `Milenage.Unit.ComputeOPc` | src/milenage.cpp:271-281 | OPc is the encrypted OP masked with OP |
| `Milenage.Unit.ComputeF1` | src/milenage.cpp:35-75 | the code is f1 of 3GPP TS 35.206, for every K, OP, RAND, SQN and AMF |
| `Milenage.Unit.ComputeF2345` | src/milenage.cpp:94-160 | response, both keys and anonymity key are f2, f3, f4 and f5 |
| `Milenage.Unit.ComputeF1Star` | src/milenage.cpp:172-218 | the code is f1* |
| `Milenage.Unit.ComputeF5Star` | src/milenage.cpp:230-262 | the anonymity key is f5* |
| `Milenage.OpCAndTemp` | src/milenage.cpp:35-75 | OPc and TEMP, byte by byte |
| `Milenage.Out1Bytes` | src/milenage.cpp:35-75 | f1 and f1* from the 16 bytes that are encrypted: TEMP with SQN, AMF, SQN, AMF, masked and turned by 64 bits |
| `Milenage.RotationsAndConstants` | src/milenage.cpp:94-160 | f2 to f5 and f5* from the bytes that are encrypted: rotations by 0, 32, 64 and 96 bits, constants 1, 2, 4 and 8, and which part of the output each takes |
| `Base64.RoundTrip` | src/auth.cpp:428-471 | for every byte string x, the decoded encoding begins with x and its reported length is 3 * ceil(n / 3) + 1, n being the length of x |
| `Base64.EncodeString` | src/auth.cpp:720-793 | the encoder writes the encoding, within its allocation |
| `Base64.DecodeString` | src/auth.cpp:428-471 | the decoder writes the decoding, within its allocation, for every text |
| `Base64.DecodeLength` | src/auth.cpp:428-471 | the reported length of every text: leftover characters give none, one or three bytes, never two |
| `Base64.UnpaddedRoundTripIff` | src/auth.cpp:438-464 | an encoding without padding signs decodes to its bytes if and only if there are not two bytes left over, or the last one is zero |
| `Base64.Alphabet` | src/auth.cpp:291-426 | the 64 signs are those of table 1 of RFC 4648 |
| `Base64.OtherSigns` | src/auth.cpp:291-426 | the padding sign reads as -1, every sign outside the table as 0 |
| `Base64.DigitsSpell` | src/auth.cpp:720-793 | the four digits of a group spell its 24 bits, highest first |
| `Base64.EncodedSigns` | src/auth.cpp:720-793 | where the four signs of each group stand in the encoding |
| `Base64.EncodedTail` | src/auth.cpp:720-793 | the signs and padding of one or two bytes left over |
| `Aka.AkaAgrees` | src/auth.cpp:523-551 | for every K, OP, RAND, SQN and AMF a base64 challenge passes the length check, the client recovers SQN and the response, and the codes agree if the configured AMF is the challenge's |
| `Aka.LengthCheck` | src/auth.cpp:523-529 | a nonce text is refused if and only if it has fewer than 42 characters, or fewer than 44 and a padding sign as its 42nd |
| `Aka.EncodedLengthCheck` | src/auth.cpp:523-529 | a padded encoding is refused if and only if it is of fewer than 31 bytes |
| `Aka.UnpaddedChallenge` | src/auth.cpp:438-464 | for every K, OP, RAND, SQN and AMF, a challenge sent without its padding sign is accepted, gives SQN and response, and passes for authentic if and only if the last byte of its code is zero |
| `Aka.ChallengeLayout` | src/auth.cpp:532-551 | where RAND, masked SQN, AMF and MAC stand in a challenge |
| `Aka.ClientTakes` | src/auth.cpp:532-551 | which bytes of any long enough nonce the client unmasks, answers and compares |
| `Aka.Compute` | src/auth.cpp:537-551 | recovers SQN in place, computes the response and compares the codes |
| `Aka.CreateAnswer` | src/auth.cpp:523-551 | decodes a nonce, takes it apart and answers it |
| `CsvIndex.GetField` | src/infile.cpp:154-251 | the scan gives the f-th component between semicolons, empty if there is none |
| `CsvIndex.FieldsBetweenSemicolons` | src/infile.cpp:154-251 | fields put together with semicolons are found again under their numbers, counted from 0; under any other there is nothing |
| `CsvIndex.FileContents.Index` | src/infile.cpp:295-303 | indexes every line |
| `CsvIndex.FileContents.Lookup` | src/infile.cpp:305-319 | the indexed line or -1, an error without an index |
| `CsvIndex.FileContents.Insert` | src/infile.cpp:322-337 | appends and indexes a line |
| `CsvIndex.FileContents.Replace` | src/infile.cpp:339-350 | takes the old line out of the index if it is there, puts the new one in; refuses lines that do not exist |
| `CsvIndex.FileContents.ReIndex` | src/infile.cpp:352-367 | the key of a line leads to that line |
| `CsvIndex.FileContents.DeIndex` | src/infile.cpp:369-385 | a key that leads to the line is removed |
| `CsvIndex.LatestLookup` | src/infile.cpp:305-319 | in an index on the last lines, a lookup gives the last line with the key, or -1 exactly when no line has it |
| `CsvIndex.AlwaysSound` | src/infile.cpp:322-385 | after any inserts and replaces every entry leads to a line that has its key |
| `CsvIndex.InsertsKeepLatest` | src/infile.cpp:322-337 | with inserts only, every key leads to the last line that has it |
| `CsvIndex.ReplaceKeepsLatestIff` | src/infile.cpp:339-350 | a replace keeps that if and only if no later line has the new key and, if the line was the last with its old key and loses it, no earlier line has that key |
| `CsvIndex.ReplaceCanLoseAKey` | src/infile.cpp:339-350 | two lines, one replace, and a key that is still there is not found |
| `CsvIndex.DistinctIsExact` | src/infile.cpp:322-385 | if no two lines ever share a key, lookups are exact both ways |
| `RouteSet.DialogState.FormatNextReqUrl` | src/call.cpp:3551-3567 | strips the address out of its brackets; a missing closing bracket is fatal |
| `RouteSet.UriBetweenBrackets` | src/call.cpp:3551-3567 | the address is what stands between the first opening bracket and the first closing one behind it, the text itself without an opening one, and nothing without a closing one |
| `RouteSet.LooseIsMarked` | src/call.cpp:3603-3610 | a router is loose exactly if ";lr" stands in its entry |
| `RouteSet.ScanEntries` | src/call.cpp:3590-3651 | the loop over the header computes route set and target from its entries |
| `RouteSet.DialogState.ComputeRouteSetAndRemoteTargetUri` | src/call.cpp:3569-3666 | what ends up in the dialog, for every header, contact and direction |
| `RouteSet.ResponseMeetsStandardIff` | src/call.cpp:3590-3651 | on a response the result is that of RFC 3261 if and only if the last entry is a loose router or the list is not an empty entry and a strict router |
| `RouteSet.ResponseCanLoseAnEntry` | src/call.cpp:3645-3653 | such a list, and its empty entry is gone |
| `RouteSet.LooseRouteSetIsReversed` | src/call.cpp:3610-3633 | behind a loose router the route set is the list in reverse order and the target the contact |
| `RouteSet.StrictRouteSetEndsWithContact` | src/call.cpp:3605-3651 | behind a strict router the target is the last entry and the route set the reversed rest, then the contact |
| `RouteSet.RequestMeetsStandardIff` | src/call.cpp:3590-3651 | on a request, for every header and contact, the result is that of RFC 3261 if and only if there is a single entry, or entries and contact coincide: all entries equal and loose; the first strict and equal to the contact, a later one loose; the first loose and the others together equal to the contact, none of them loose; or two equal, non-empty strict entries |
| `RouteSet.RequestMissesStandard` | src/call.cpp:3590-3651 | so two different entries in front and a contact that is neither the first entry nor all the others always go wrong |
| `RouteSet.RequestTargetCanBeTwo` | src/call.cpp:3605-3623 | three strict routers: the target comes out as the second and third in one text |
| `CleanCdata.PassCleans` | src/scenario.cpp:627-647 | deleting a run of blanks exactly when it touches a newline can be done in one pass |
| `CleanCdata.DeleteAfter` | src/scenario.cpp:631-634 | deleting one blank after a newline does not change what the text cleans to |
| `CleanCdata.DeleteBefore` | src/scenario.cpp:635-638 | nor does deleting one before a newline |
| `CleanCdata.CleanText` | src/scenario.cpp:627-647 | the clean text has no blank beside a newline, keeps all else in order, keeps an empty line, and cleaning it again changes nothing |
| `CleanCdata.CleanHasNoPair` | src/scenario.cpp:627-647 | the clean text has none of the four pairs of a newline and a space or tab |
| `CleanCdata.CleanUp` | src/scenario.cpp:627-647 | the nested deletion loops end, and end with the clean text, whatever the order of deletions |
| `CleanCdata.CleanCdata` | src/scenario.cpp:594-650 | strips, adds an empty line if there is none, refuses exactly one remaining character, and cleans up |
| `CleanCdata.StrippedIs` | src/scenario.cpp:594-616 | spaces, tabs and newlines go off both ends, all of them and nothing else |
| `CleanCdata.CleanedThenEmptyLine` | src/scenario.cpp:618-620 | the empty line that is added stands behind the clean text |

## Left out

Loose message sequence:
- Scenarios with branches, loops, `condexec`, `lost`, time-outs, 3PCC commands or globally optional receives, which the mode excludes or which are outside its premises; several calls sharing the counters.
- Patterns, regular expressions, transactions and CSeq methods: a packet carries the set of entries whose pattern it fits. An entry's position and Call-ID are modelled.
- What happens to a message no entry can take. By default it ends the call; it can also be absorbed as a retransmission, queued, or ignored, and then index, counters and Call-IDs are as before, which is how the model treats it.
- A SEND that mints a Call-ID for another dialog through the `[call_id dialog=n]` keyword, and sends that block.
- How long a pause lasts. With arrivals during a pause not ignored, one that is credited without moving the index starts the pause again.
- `LooseRuns.CallIdsStayUnique`: a scenario may write the same Call-ID into two dialogs, and a peer may quote one before it was sent; both are premises, as the source does not check them.

Timers and generators:
- The text of a reply decides `INVITE` by prefix; how method names are extracted is not modelled. Actions that abort a call are one outcome, "over".
- `Retransmission.BackoffWhileArmed`: non-INVITE delays and T2 below 2^31 ticks, so that doubling them does not wrap; INVITE delays are unrestricted.
- `Retransmission.NeverGivesUpEarly`: for runs in which clock plus longest delay stay below 2^32; the wrap itself is in the model.
- `OpenTask.OpensWithinLimit`: live calls plus calls wanted stay below 2^64.
- Connecting, sockets and congestion in the call generator, its wake-up time, and the choice of run queue. Only this generator creates calls, and a call's counter goes down once.
- The TDM circuit map: the code marks one index and clears another. Floating-point rounding of rates. Truncation of counters to `int`.
- The sleep system call, its interruption, sending and retrying of RTP packets.

Indices and texts:
- Printing of include stacks, warnings, and the check that recorded newlines are where the buffer has them. A query before any include.
- Injection files in printf mode, the first line of a file, random and per-user choice of lines, and truncation of fields by buffer size.
- The Record-Route header's own extraction, quoted commas, and buffer sizes. A route set is computed once a dialog.
- Allocation in the CDATA clean-up.

Authentication:
- The digest over the response, parsing of the authentication header, resynchronisation, which the source disables, and storing SQN. A mismatch of codes is reported only, as in the source.
- The tables of the cipher as numbers: any tables that stand in the stated relation to any S-box. A big-endian build.
