# chat_test core, modelled in Dafny

This project models the core of the `chat_test` chat server. The core is in four parts.

- **The `gen_routine` actor runtime.** This is a tree of managers (`Mgr`). Each manager holds a registry of actors and child managers in one map, a count of each, a cancellable context and a wait group. Each actor (`Svr`) runs a receive loop over a 64-slot mailbox, with a Call/reply protocol, Exec messages, and process-wide groups of actors.
- **The `profanity` filter.** It builds a character trie from a word list and stars out matched words, skipping punctuation while it matches.
- **The wire format of `msg/request.go`.** A frame is a big-endian uint16 length, then the group byte, the command byte and the body. A uint16 type key chooses the decoded struct.
- **The chat history and word ranking of `chat/player/player.go`.** It keeps the last 50 messages per group, a sliding window of uses per word, and a high-water mark of the most used word.

## Modules

| file | module | models |
|---|---|---|
| base.dfy | `Base` | `Option`; the `interface{}` keys and values the runtime passes around; actor identity |
| errors.dfy | `Errors` | `gen_routine/error.go`: the codes, the `Error` record and `Error.String` |
| groups.dfy | `Groups` | `gen_routine/group.go`: the two mirrored group maps |
| manager.dfy | `Manager` | `gen_routine/mgr.go`: the manager tree, its registry, the id counter, `newMgr` and the two halves of `stop` |
| actor.dfy | `Actor` | `gen_routine/svr.go`: `behaviorInit`, `handle`, `handleExec`, one turn of `loop`, the result of `stop` |
| runtime.dfy | `Runtime` | `gen_routine/routine.go` and the glue of `newSvr`/`svrTerminate`, as a state machine over managers, actors and reply channels |
| profanity.dfy | `Profanity` | `profanity/profanity.go` |
| framing.dfy | `Framing` | `msg/request.go` with the constants of `constant/const.go` |
| history.dfy | `ChatHistory` | `addHistory`, `getHistory`, `updateFrequency` and `updateRank` of `chat/player/player.go` |

### How goroutines are modelled

Goroutines and blocking become explicit steps over a `Runtime.World`.

- The caller's half of an operation is one function: `NewSvr`, `Cast`, `Call`, `CallTimeout`, `SyncExec`, and so on.
- The actor's loop has three kinds of step:
  - `ActorStep` takes one message and delivers the replies;
  - `ObserveCancel` is the `ctx.Done()` branch;
  - `Finalize` runs `Terminate` and `svrTerminate`.
- These steps may interleave in any order.
- A reply channel is a `Slot`. It is `Waiting` while its caller waits, `Answered` once the actor has replied, and `Abandoned` after a timeout.
- The invariant `Runtime.Wf` ties each manager's wait-group counter to the number of its actors that have not yet signalled `Done`. It also bounds every mailbox by 64 and keeps serial numbers and channel numbers fresh.

### Behaviour of the code worth knowing

Each of these follows from the code as written, and the model keeps it.

- **A timed-out Call blocks its actor.** The reply channel is unbuffered (`gen_routine/svr.go:123`), so a reply to a caller that has already timed out blocks the actor forever on that send. The actor never handles another message, never notices cancellation and never signals its wait group (`Runtime.TimeoutStrandsActor`, `Actor.BlockedIsForever`). A later `stop` of its manager therefore waits forever.
- **`stop` waits only for the manager's own actors.** Each actor adds itself to the wait group of the manager that started it (`gen_routine/svr.go:45`), and `stop` waits on its own manager's group alone (`gen_routine/mgr.go:76`). Stopping a parent cancels the actors of its child managers but does not wait for them (`Runtime.StopWaitsForLiveActors` counts only actors owned by the stopped manager).
- **The wait group is signalled before `Terminate`.** The loop's deferred clean-up calls `wait.Done()` before `Terminate`, and `Terminate` leads to `svrTerminate` (`gen_routine/svr.go:60-61`). So `stop` can return while an actor's key is still registered (`Runtime.StopBeforeTerminate`).
- **A failed `Init` still finalizes.** The failed actor's loop still runs `stop`, and so `svrTerminate` (`gen_routine/svr.go:63-65`, `53-62`). This has two effects:
  - The actor count drops one below its value before the attempt (`Runtime.FailedInitUndercounts`).
  - If a successor has registered under the same key in the meantime, the successor's key is evicted (`Runtime.FailedInitEvictsSuccessor`).

## Model

| member | source | states |
|---|---|---|
| Errors.CrashError | gen_routine/svr.go:102-107 | a recovered panic becomes an error with code Crash, the stack trace as its param (printed as the ` info : ` part), the panic value, and no cause |
| Errors.CodesAreDistinct | gen_routine/error.go:41-55 | the thirteen codes are 0, -1, …, -12 in declaration order and pairwise distinct |
| Errors.NatToDec | gen_routine/error.go:31 | `%d` of a non-negative code is a non-empty digit string without a leading zero unless the code is 0 |
| Errors.NatToDecRoundTrip | gen_routine/error.go:31 | the decimal text of a non-negative number parses back to that number |
| Errors.IntToDecRoundTrip | gen_routine/error.go:31 | `%d` of a negative code is '-' followed by the digits of its magnitude; either way the text reads back as the code |
| Errors.Own | gen_routine/error.go:31-37 | an error's own part is `Code : <code>`, then ` info : <param>` only for a non-empty param, then `panic err : <value>` only when a panic value is present: the header starts it, the info part follows the header, the panic part ends it, and the length is exactly their sum, which fixes every character |
| Errors.Render | gen_routine/error.go:25-39 | the rendering of an error ends with its own part |
| Errors.Chain | gen_routine/error.go:27-29 | following `Last` links ends at the error itself |
| Errors.RenderIsJoinedChain | gen_routine/error.go:25-39 | `String` is the own parts of the whole cause chain, root cause first, joined by newlines |
| Errors.RenderStartsWithRootCode | gen_routine/error.go:26-31 | the rendering starts with the root cause's `Code : ` header |
| Groups.EmptyIsValid | gen_routine/group.go:22-28 | the registry made at startup satisfies the mirror invariant |
| Groups.Reg | gen_routine/group.go:31-48 | afterwards the actor is listed in the group under its key and the group is listed for the actor; every other membership is unchanged in both maps, and so are the other actors stored |
| Groups.RegKeepsValid | gen_routine/group.go:31-48 | registering keeps the two maps mirrored, free of empty inner maps, and every actor stored under its own key |
| Groups.RegIdempotent | gen_routine/group.go:31-48 | registering the same actor in the same group twice is the same as once |
| Groups.DropGroup | gen_routine/group.go:58-63 | removing a group from an actor's set keeps that set unless it became empty, and touches no other actor |
| Groups.DropMember | gen_routine/group.go:66-73 | removing an actor from a group keeps the group unless it became empty, and touches no other group |
| Groups.UnReq | gen_routine/group.go:51-74 | the (group, actor) pair disappears from both maps; every other pair is kept in both directions with the same actor |
| Groups.UnReqKeepsValid | gen_routine/group.go:51-74 | removal preserves the mirror invariant |
| Groups.UnReqNonMemberIsNoOp | gen_routine/group.go:58-69 | removing a pair that is not registered leaves a valid registry unchanged |
| Groups.Bye | gen_routine/group.go:77-93 | the actor leaves the reverse map and, in a valid registry, every group, while every other membership stays as it was and the result is still valid |
| Groups.ByeKeepsValid | gen_routine/group.go:77-93 | purging an actor from all its groups preserves the mirror invariant |
| Groups.AllSvr | gen_routine/group.go:96-105 | an unknown group gives no actors; a known one gives exactly its actors, without repetition in a valid registry |
| Groups.SameKeyOverwrites | gen_routine/group.go:41 | a second actor with the same key replaces the first in the group |
| Manager.InitRoot | gen_routine/mgr.go:34-39 | startup builds a valid tree with a parentless root and the id counter at 0 |
| Manager.Reg | gen_routine/mgr.go:118-121 | `LoadOrStore`: an existing key is reported with its entry and the registry is unchanged; a new key is stored; nothing else in the manager changes |
| Manager.Unreg | gen_routine/mgr.go:124-128 | a nil key changes nothing; otherwise exactly that key leaves the registry |
| Manager.Lookup | gen_routine/mgr.go:134-140 | finds an entry exactly when the key is registered, and then finds the registered entry |
| Manager.SvrTerminate | gen_routine/mgr.go:112-115 | the actor count goes down by one and the actor's key leaves the registry; nothing else changes |
| Manager.SvrKey | gen_routine/mgr.go:66-71 | an explicit key is used as given; a nil key draws the next counter value, modulo 2^64 |
| Manager.GeneratedIdsIncrease | gen_routine/mgr.go:66-71 | before the counter wraps, successive generated ids are consecutive and increasing |
| Manager.IdCounterWraps | gen_routine/mgr.go:68 | at the top of the uint64 range the next generated id is 0 |
| Manager.NewMgr | gen_routine/mgr.go:49-63 | a taken name returns the existing manager with AlreadyHad, or panics when an actor holds the name; a free name adds a fresh empty child under that parent, increments the parent's child count and registers the name, keeping the tree valid |
| Manager.NewMgrInheritsCancellation | gen_routine/mgr.go:58 | a new child's context is cancelled exactly when its parent's is |
| Manager.StopBegin | gen_routine/mgr.go:75 | only the stopped manager's own cancel flag changes |
| Manager.StopBeginCancelsDescendants | gen_routine/mgr.go:75 | cancelling a manager cancels every manager below it |
| Manager.StopFinish | gen_routine/mgr.go:76-79 | `stop` blocks exactly while the wait group is non-zero and panics on the root; otherwise the parent has one child fewer and the name leaves the parent's registry, and nothing else changes |
| Manager.ChildNameTakesActorKey | gen_routine/mgr.go:88-92 | managers and actors share one registry, so an actor keyed by a child manager's name cannot register |
| Actor.BehaviorInit | gen_routine/svr.go:84-98 | `Init` succeeds with no reason; an error becomes RoutineInitFail with the error as cause; a panic becomes Crash; a reason is never Ok |
| Actor.HandleExec | gen_routine/svr.go:135-142 | an Exec sends no replies; a synchronous one returns the result list and an asynchronous one nil; a panicking target yields a Crash error |
| Actor.Handle | gen_routine/svr.go:100-120 | a message produces one reply per Call wrapper; the outermost one goes to the Call's channel; an Exec is handled as `handleExec` states; a behavior's panic becomes Crash with a nil result |
| Actor.AsyncExecOutcomes | gen_routine/svr.go:102-116 | an asynchronous Exec replies to nobody and returns nil; its target's panic becomes a Crash error that ends the loop, while a returning target keeps the loop running |
| Actor.CallHandlesInner | gen_routine/svr.go:109-112 | a Call returns the inner message's pair and replies with it after the inner message's own replies |
| Actor.StopIgnoresBehavior | gen_routine/svr.go:113-114 | a Stop message returns its reason whatever the behavior |
| Actor.CallRepliesOnce | gen_routine/svr.go:109-112 | a Call around a non-Call message replies exactly once, to its own channel, with the inner pair |
| Actor.StepAnswersCall | gen_routine/svr.go:109-112 | a lone Call of a plain message answers its caller with the inner pair if the caller still waits, and otherwise leaves the actor blocked on the reply |
| Actor.Step | gen_routine/svr.go:67-81 | only a running loop with mail takes a turn, and the turn consumes the head of the mailbox |
| Actor.StepSpec | gen_routine/svr.go:73-79 | a turn delivers a prefix of the replies, all to waiting callers, and blocks exactly when a reply meets a caller that left; otherwise it exits exactly when the error is non-nil and not Ok, with that error as reason |
| Actor.Cancel | gen_routine/svr.go:70-72 | a running loop that sees cancellation exits with CtxDone; any other state is unaffected |
| Actor.RunN | gen_routine/svr.go:67-81 | the loop handles at most one message per turn, never more than are queued, the rest stay queued, and a loop that is not running handles nothing |
| Actor.RunHandlesPrefix | gen_routine/svr.go:73-79 | the loop handles a prefix of its mailbox, in order, and leaves the rest queued |
| Actor.RunContinuesBeforeLast | gen_routine/svr.go:74-79 | every handled message but the last left the loop running |
| Actor.RunStopsAtLast | gen_routine/svr.go:67-81 | a loop that exited did so with the last handled message's error; one still running ran out of turns or mail |
| Actor.FifoOrder | gen_routine/svr.go:73 | two messages sent one after the other are handled in that order, with nothing in between |
| Actor.BlockedIsForever | gen_routine/svr.go:111 | an actor stuck on a reply handles nothing more and ignores cancellation |
| Actor.StopResult | gen_routine/svr.go:144-154 | `stop` returns nil unless `Terminate` panicked, and then a Crash error with the panic value |
| Runtime.Boot | gen_routine/mgr.go:34-39 | the world at startup is well formed, with only the root manager and no actors |
| Runtime.Done | gen_routine/svr.go:60 | the actor's manager's wait group goes down by one; no other manager changes |
| Runtime.NewSvr | gen_routine/mgr.go:83-103 | the key is drawn first; a taken key returns the holder with AlreadyHad, or panics if a manager holds it; otherwise the actor starts exactly when `Init` succeeded, and fails with `Init`'s reason |
| Runtime.NewSvrEffect | gen_routine/mgr.go:83-103 | a start registers the new actor under its key and counts it; a failed start unregisters the key, keeps the count and leaves the actor exited but not yet finalized |
| Runtime.NewSvrKeepsWf | gen_routine/svr.go:40-49 | spawning keeps every wait group equal to its live actors, as `wait.Add(1)` precedes the loop |
| Runtime.FailedInitEvictsSuccessor | gen_routine/mgr.go:112-115 | after a failed start and a successful restart under the same key, finalizing the failed actor removes the running successor's key and restores the old count |
| Runtime.GeneratedIdCollides | gen_routine/mgr.go:66-71 | a generated id that equals an explicitly registered key cannot start an actor |
| Runtime.FailedInitUndercounts | gen_routine/mgr.go:95-101 | a failed start that is then finalized leaves the actor count one below where it was |
| Runtime.Cast | gen_routine/routine.go:79-81 | a message is appended to the mailbox exactly when there is room |
| Runtime.StopSvr | gen_routine/routine.go:74-76 | a Stop with the reason is appended to the mailbox exactly when there is room |
| Runtime.EnqueueKeepsWf | gen_routine/svr.go:42 | appending to a mailbox that is not full keeps the world well formed |
| Runtime.Call | gen_routine/svr.go:122-125 | a Call opens a fresh waiting channel and appends the wrapped message exactly when the mailbox has room |
| Runtime.CallTimeout | gen_routine/svr.go:127-128 | a timeout returns nil with Timeout and abandons the channel |
| Runtime.CallResult | gen_routine/svr.go:129-130 | the caller receives exactly the pair the actor sent, once it has sent it |
| Runtime.CallKeepsWf | gen_routine/svr.go:122-125 | a Call keeps the world well formed and its channel is new |
| Runtime.CallTimeoutKeepsWf | gen_routine/svr.go:126-128 | giving up on a Call keeps the world well formed |
| Runtime.Deliver | gen_routine/svr.go:111 | replies are written to their channels, the last reply's channel ends up holding it, and other channels are untouched |
| Runtime.ActorStep | gen_routine/svr.go:73-79 | a loop turn changes only that actor and the reply channels it answers |
| Runtime.ActorStepKeepsWf | gen_routine/svr.go:51-82 | a loop turn keeps the world well formed, signalling the wait group exactly when the loop ends |
| Runtime.ObserveCancel | gen_routine/svr.go:70-72 | a running actor of a cancelled manager exits with CtxDone and signals its wait group; otherwise nothing changes |
| Runtime.ObserveCancelKeepsWf | gen_routine/svr.go:70-72 | noticing cancellation keeps the world well formed |
| Runtime.Finalize | gen_routine/svr.go:144-154 | an exited actor runs `svrTerminate`: its manager's count drops and its key leaves the registry |
| Runtime.FinalizeKeepsWf | gen_routine/svr.go:144-154 | finalizing keeps the world well formed |
| Runtime.CallRoundTrip | gen_routine/svr.go:122-131 | a Call to an idle actor yields exactly the pair the handled message produced |
| Runtime.TimeoutStrandsActor | gen_routine/svr.go:123-128 | after a timeout the actor blocks on the reply, stays counted as live, and the caller never gets a result |
| Runtime.WorldNewMgr | gen_routine/mgr.go:49-63 | creating a child manager leaves actors and channels alone |
| Runtime.WorldNewMgrKeepsWf | gen_routine/mgr.go:49-63 | a new child manager has no live actors, so the world stays well formed |
| Runtime.WorldStopBegin | gen_routine/mgr.go:75 | after the first half of `stop` the manager is cancelled |
| Runtime.WorldStopBeginKeepsWf | gen_routine/mgr.go:75 | cancellation keeps the world well formed |
| Runtime.StopWaitsForLiveActors | gen_routine/mgr.go:76 | `stop` blocks exactly while some actor started by that manager itself, not by a child manager, has not signalled completion |
| Runtime.StopBeforeTerminate | gen_routine/svr.go:53-62 | `stop` can complete while an exited actor's key is still registered, since `Done` precedes `Terminate` |
| Runtime.ExecIn | gen_routine/routine.go:131-144 | the arguments pass exactly when their count equals the target's parameter count; otherwise the error is ReflectParamsLen with no cause and text exactly `expected : N, actual : M`: it starts with the first part, ends with the second, and is as long as both together |
| Runtime.SyncExec | gen_routine/routine.go:95-105 | bad arguments are rejected before any send, with execIn's ReflectParamsLen error; otherwise a synchronous Exec is sent as a Call on a fresh channel, or nothing is sent when the mailbox is full |
| Runtime.SyncExecFinish | gen_routine/routine.go:105-111 | the caller gets the values exactly when the reply is a result list, and panics otherwise |
| Runtime.SyncExecOutcomes | gen_routine/routine.go:95-112 | `SyncExec` never reports an error: a returning target gives its values, and a panicking target or a timeout panics the caller |
| Runtime.ASyncExec | gen_routine/routine.go:115-128 | bad arguments are rejected with execIn's ReflectParamsLen error; otherwise an asynchronous Exec is cast, and it is never a Call |
| Profanity.AddWord | profanity/profanity.go:44-58 | adding a word creates exactly its prefixes as nodes and sets the end flag on the word itself only |
| Profanity.WalkAddsWord | profanity/profanity.go:46-58 | the inner loop from character i adds the prefixes longer than i and flags the word's end |
| Profanity.AddWordBuilds | profanity/profanity.go:43-60 | adding one word more to a built trie gives the trie built from the larger set |
| Profanity.AddSensitiveToMap | profanity/profanity.go:42-61 | the trie built from a word set has every prefix of each word as a node, flags exactly the non-empty words, and does not depend on iteration order |
| Profanity.BuiltHoldsWords | profanity/profanity.go:42-61 | every non-empty word ends a node, every prefix is a node, and a flagged node is an earlier word or a new one |
| Profanity.StarOut | profanity/profanity.go:83-85 | the matched range is replaced by stars and everything else is kept |
| Profanity.Scan | profanity/profanity.go:69-104 | the scan loop only overwrites runes in place, so the text keeps its length |
| Profanity.ChangeSensitiveWords | profanity/profanity.go:64-107 | the filtered text has the input's length; each character is kept or starred, and every starred one lies inside a match: a span that starts and ends on a character that is not ignored and whose characters that are not ignored spell a listed word |
| Profanity.ScanStarsOnlyWords | profanity/profanity.go:69-104 | every character the scan changes becomes a star and lies inside a match that starts no earlier than the current partial match, or the current index when there is none |
| Profanity.ScanSkipsIgnored | profanity/profanity.go:70-72 | an ignored character is passed over and the partial match is kept as it is |
| Profanity.ScanEndsMatch | profanity/profanity.go:81-90 | a character that completes a word stars everything from the match's first character through it and the scan restarts at the root on the next character |
| Profanity.ScanExtendsMatch | profanity/profanity.go:73-93 | a character leading to a node that ends no word extends the match, recording its index as the start when the match was empty |
| Profanity.ScanAbandonsMatch | profanity/profanity.go:95-103 | a character that cannot extend a partial match drops it, and the scan resumes at the root two past the match's first character |
| Profanity.ScanMissesAtRoot | profanity/profanity.go:95-103 | at the root, a character that begins no word is passed over |
| Profanity.ScanSkipsNonStarts | profanity/profanity.go:69-104 | at the root, a run of characters each ignored or beginning no word is passed over unchanged |
| Profanity.ScanWithoutFirstChars | profanity/profanity.go:95-103 | text none of whose characters starts a word is returned unchanged |
| Profanity.EmptyTrieKeepsText | profanity/profanity.go:64-107 | with no sensitive words the text is unchanged |
| Profanity.ScanStarsWord | profanity/profanity.go:70-93 | a match met from the root, ignored characters inside it included, whose spelled word no shorter word cuts off, is starred whole, its ignored characters too, and the scan restarts just after it |
| Profanity.ScanShift | profanity/profanity.go:69-104 | the scan never looks back: text in front of the scanned part is passed through untouched, and the rest comes out as if scanned alone |
| Profanity.PlainPiece | profanity/profanity.go:95-103 | a piece none of whose characters begins a word passes through, and the scan goes on after it as if the text started there |
| Profanity.WordPiece | profanity/profanity.go:73-90 | a piece that is a whole match, cut off by no shorter word, becomes as many stars as it has characters, and the scan goes on after it |
| Profanity.AbandonedStart | profanity/profanity.go:95-98 | a match begun by one character that the next cannot extend is dropped; both pass through unchanged and the scan goes on after the second, which is never tried as a start |
| Profanity.TestTrieBuilt | profanity/profanity.go:42-61 | the trie of the test's five words has 你, 狗, 傻 and f as its only first characters, 妈, 日 and u as its only second ones, and along each word inner nodes followed by a flagged end; 你妈 is flagged although it is also a prefix of 你妈逼的 |
| Profanity.FilterTestExample | profanity/profanity_test.go:9-29 | with the test's five words, the test's text comes out exactly as the test expects, with the same length |
| Profanity.WholeWordStarred | profanity/profanity.go:73-90 | such a word on its own comes out as all stars |
| Profanity.ResumesTwoPastStart | profanity/profanity.go:96-98 | after a failed partial match the scan resumes two past its start, so "aab" keeps "ab" unstarred |
| Profanity.SkipsCharAfterFailedStart | profanity/profanity.go:95-103 | the character right after a failed start is never tried as a start, so "ac" keeps "c" unstarred |
| Profanity.ShortestWordWins | profanity/profanity.go:81-90 | with "ab" and "abc" both listed, "abc" becomes "**c" |
| Profanity.StopsAtFirstEnd | profanity/profanity.go:81-90 | the match ends at the first node flagged as a word end |
| Profanity.SkippedCharsAreStarred | profanity/profanity.go:70-85 | ignored characters inside a match are starred with it: "a b" becomes "***" |
| Framing.TypeKey | msg/request.go:83 | the type key is `grp*1000 + cmd` reduced to uint16 |
| Framing.MsgMapKeys | msg/request.go:54-67 | requests are keyed 1001, 2001, 2002 and 2004, with 2004 decoded as a join request; responses add 2003 (notify) and decode 2004 as history |
| Framing.TypeKeyCollides | msg/request.go:83 | group 132, command 73 wraps to key 1001 and is decoded as a login request |
| Framing.TypeKeyInjectiveBelowWrap | msg/request.go:83 | for groups up to 65 the key determines group and command |
| Framing.LengthField | msg/request.go:104 | the length field is the body length plus two, modulo 2^16 |
| Framing.Write | msg/request.go:98-107 | a frame is the big-endian length field, the group, the command and the body, in that order |
| Framing.Read | msg/request.go:70-95 | fewer than two bytes is a read error, and a declared length below two panics; a frame yields the length's worth of group, command and body bytes and the rest of the stream; when the stream is short, group, command and body are what remains of it followed by zero bytes up to the declared length, and nothing is left; the type is the one registered for the key; with a declared length of two or more it is a frame exactly when the key made of the buffer's first two bytes (zero where the stream ended) is registered, and otherwise it panics at the nil type with that key |
| Framing.ReadWriteRoundTrip | msg/request.go:70-107 | reading a written frame gives back its group, command, registered type and body, and leaves what followed |
| Framing.LongBodyBreaksFraming | msg/request.go:104 | a body of 65534 bytes or more gets a length field that does not describe it |
| Framing.MaxBodyReadsAsEmpty | msg/request.go:77-80 | a 65534-byte body is announced as empty and reading it back panics |
| Framing.ShortFrameIsZeroPadded | msg/request.go:78-80 | a frame cut short is handed on padded with zero bytes |
| ChatHistory.StripStars | chat/player/player.go:167 | the result holds no star and every other character as often as the input |
| ChatHistory.Split | chat/player/player.go:168 | splitting gives one piece more than there are spaces, none containing a space |
| ChatHistory.JoinSplit | chat/player/player.go:168 | joining the pieces with spaces gives the text back |
| ChatHistory.SplitJoin | chat/player/player.go:168 | splitting space-free words joined by spaces gives the words back |
| ChatHistory.StripStarsKeepsStarFree | chat/player/player.go:167 | text without stars is unchanged, so stripping is idempotent |
| ChatHistory.Survivors | chat/player/player.go:177-184 | the kept ages are at most as many as before and all fit a uint16 |
| ChatHistory.SurvivorsCount | chat/player/player.go:179-184 | exactly the uses inside the window survive: as many ages are kept as there are uses whose age plus the elapsed time is at most `MaxFSec` |
| ChatHistory.SurvivorsKeep | chat/player/player.go:179-183 | every use inside the window is kept, aged by the elapsed time in uint16 arithmetic |
| ChatHistory.SurvivorOrigin | chat/player/player.go:179-183 | every kept age is an aged use that was inside the window |
| ChatHistory.SurvivorAged | chat/player/player.go:183 | without wrap-around a kept use is aged by exactly the elapsed time |
| ChatHistory.Touch | chat/player/player.go:177-187 | a touched word is stamped now, ends with a fresh use of age 0, and has at most one use more than before |
| ChatHistory.TouchCounts | chat/player/player.go:177-187 | a touched word's uses are the survivors of its old uses followed by the fresh one, so it counts its uses inside the window plus one |
| ChatHistory.UpdateRank | chat/player/player.go:193-202 | the first count installs the word; afterwards the record is replaced exactly on a strictly larger count, so it is the maximum offered and ties keep the earlier word |
| ChatHistory.UpdateWord | chat/player/player.go:170-190 | the word gains an entry stamped now, other words are untouched, and the rank is offered the word's new count |
| ChatHistory.UpdateWordCount | chat/player/player.go:171-189 | the word's entry is its old one, or a new one stamped now, touched; its count is its old uses inside the window plus one |
| ChatHistory.UpdateWords | chat/player/player.go:170-190 | every word of the message gets an entry stamped now, other words keep theirs, and the history of messages is untouched |
| ChatHistory.UpdateWordsCounts | chat/player/player.go:170-190 | after the loop each word of the message counts its old uses inside the window plus the number of times it occurs in the message |
| ChatHistory.UpdateFrequencyCounts | chat/player/player.go:165-190 | `updateFrequency` counts each word of the star-stripped, space-split message that way |
| ChatHistory.AddHistoryAppends | chat/player/player.go:147-161 | the group's history becomes the last min(50, n+1) messages of the old history plus the new one, ending with it |
| ChatHistory.AddHistoryCounts | chat/player/player.go:153-163 | adding a message counts each of its words as `updateFrequency` does |
| ChatHistory.AddHistoryLeavesOtherGroups | chat/player/player.go:153-161 | every other group's history is unchanged |
| ChatHistory.AddHistoryKeys | chat/player/player.go:153-163 | the group gets a history and exactly the message's words join the counted words |
| ChatHistory.AddHistoryToNewGroup | chat/player/player.go:156 | the first message of a group becomes its whole history |
| ChatHistory.UpdateWordKeepsValid | chat/player/player.go:186-189 | counting a word keeps ages within uint16 and the rank above every word's count and naming a counted word |
| ChatHistory.UpdateWordsKeepsValid | chat/player/player.go:170-190 | counting a whole message keeps that invariant |
| ChatHistory.AddHistoryKeepsValid | chat/player/player.go:153-163 | adding a message keeps that invariant |
| ChatHistory.RankNeverDecreases | chat/player/player.go:198-201 | the recorded top count never goes down |
| ChatHistory.UpdateWordKeepsWindow | chat/player/player.go:177-187 | with a clock that does not go back and a window that fits a uint16, every stored age stays within the window |
| ChatHistory.EmptyPiecesAreCounted | chat/player/player.go:167-189 | "a**  a" counts "a" twice and the empty piece once, and ranks "a" with two uses |
| ChatHistory.ExampleWords | chat/player/player.go:167-168 | the words of "a**  a" are "a", "" and "a" |
| ChatHistory.ExampleCounts | chat/player/player.go:170-190 | counting "a", "", "a" in an empty table gives "a" two uses and "" one |

## Left out

- Locks, `sync.Map`, atomics and goroutine scheduling are not modelled. Each operation is one atomic step, and the model explores interleavings only at the granularity of the steps listed above.
- Blocking on a full mailbox is not modelled. A send to a full mailbox returns "not sent" and leaves the world unchanged; the real sender waits until the actor makes room.
- Timers are not modelled. A timeout is the caller's choice to take the `CallTimeout` step. `CallInfinity` is `Call` without that step.
- Panics and `debug.Stack()` are not modelled as exceptions. A panic payload and its stack are inputs that a behavior may return, and a panic in a caller (`SyncExec` on a nil result, `newMgr` meeting an actor, `stop` on the root, `Read` indexing) is an outcome constructor.
- `reflect` is modelled only by arity and results. `reflect.TypeOf(f).NumIn()` becomes `Func.arity`, and `reflect.Value.Call` becomes the behavior's `invoke`.
- Logging is left out: `errorf`, `Logger` and `log.Println` print and change nothing.
- `JustRun` is left out: it starts an unmanaged goroutine and touches no modelled state.
- `foreach`/`Foreach` and `GetMod` are left out; they are read-only accessors.
- The `Grp*` wrappers of `routine.go:161-178` are left out. They call `reg`, `unReq`, `allSvr` and `bye` directly, and those are modelled in `Groups`.
- Go's `int32` counters are unbounded integers. `countSvr`/`countMgr` never approach 2^31 in the scenarios modelled.
- Go integer types inside `interface{}` keys are reduced to `U64`, `Int` and `Str`.
- `%v` formatting of panic values is left out: a panic value is already the text `%v` would print.
- `Actor.Step`: a Call's reply channel is assumed never to be nil.
- `Runtime.Done`: when the counter is already zero it stays zero; Go's `WaitGroup` would panic instead. The invariant `Runtime.Wf` rules that case out.
- JSON encoding and decoding are left out: a body is the opaque byte sequence the encoder produced, and a decode failure is not distinguished.
- `net.Conn` is a byte sequence, and a short read is the end of that sequence.
- The rest of the `chat` program is left out: `chat/svr`, `client`, `main`, `playerMgr.go`, and in `player.go` the methods `Resp`, `chat`, `gm` and `join`. They are network glue and lookups of other actors.
- Loading the word list (`profanity.load`) reads a file and is left out. The list of ignored characters is taken from `InvalidWords` directly.
- `Profanity.Scan`: its own contract states only that the length is kept. What it stars is stated by `Profanity.ScanStarsOnlyWords` (only matches, each as stars), by `Profanity.ScanStarsWord` (when a match is starred whole), and by one lemma per branch of the loop (`Profanity.ScanSkipsIgnored`, `Profanity.ScanEndsMatch`, `Profanity.ScanExtendsMatch`, `Profanity.ScanAbandonsMatch`, `Profanity.ScanMissesAtRoot`).
- `Profanity.ChangeSensitiveWords`: the contract states that only matches are starred, not that every match is. The scan misses matches by design (it resumes two past a failed start and stops at the shortest word), so when a match is starred is stated separately, by `Profanity.ScanStarsWord`.
- `ChatHistory`: the declaration of `MaxFSec` and of the `history` global are not part of this model. `MaxFSec` and the clock are parameters.
- `ChatHistory.Survivors`: its own contract bounds only the number and size of the kept ages. Which uses survive is stated by `ChatHistory.SurvivorsKeep` and `ChatHistory.SurvivorOrigin`, and how many by `ChatHistory.SurvivorsCount`.
- `ChatHistory.Touch`: its own contract fixes only the stamp and the fresh use. `ChatHistory.TouchCounts` ties the earlier uses to `Survivors` and states the count.
- `ChatHistory.UpdateWord`: its own contract does not say what the new entry holds. `ChatHistory.UpdateWordCount` states that it is the touched old entry, and its count.
- `ChatHistory.UpdateWords`: its own contract states stamps and keys only. The per-word counts are stated by `ChatHistory.UpdateWordsCounts`.
- `ChatHistory.UpdateWordsCounts`, `ChatHistory.UpdateFrequencyCounts` and `ChatHistory.AddHistoryCounts`: the counts are stated only for a history whose stored ages are inside the window and whose stamps are not after `now`. A clock that does not go back keeps that so (`ChatHistory.UpdateWordKeepsWindow`); with a stamp after `now` the aged uses wrap around in uint16, and a second occurrence of the word in the same message would drop them.
- `ChatHistory`: the `int64` addition `int64(dec)+dec1` is taken without overflow. Timestamps near 2^63 are not modelled.
