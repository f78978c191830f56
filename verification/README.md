# A verified model of the algorithms in ffsys

ffsys wraps operating-system calls, but several of its headers hold algorithms and protocols of
their own. This project models those and proves what they are for.

- **Paths** (`ffsys/path.h`). `ffpath_normalize` rewrites a path in one pass, using its output
  buffer as the stack of components, possibly over its own input. `PathSyntax` says what a path text
  means (an absolute location, or a relative one with a number of steps up), `PathNormalize` relates
  the rescanning of the output to a stack machine, `PathTheorems` proves the theorems, `PathFlags` states
  them on raw flags and on the documented rewritings, `PathDrives` is about drives, and `PathInPlace` is
  the loop on arrays. `ffpath_norm` builds a table of packed 16-bit words first:
  `PathNorm` (root and table), `PathNormOutput` (one iteration of the output pass against a stack
  machine), `PathNormExact` (when the whole pass is right), `PathNormMethod` (the code on arrays),
  `PathNormText` (what a text denotes, and how a written text is read again), `PathNormTheorems` (what
  the code yields for a text), `PathNormRules` (roots, separators and the documented rewritings).
- **Timer queue** (`ffsys/timerqueue.h`). A search tree keyed by wrapping 32-bit milliseconds.
  `TimerQueue` (operations, ownership), `TimerOrder` (order under wrap-around), `TimerProcess`
  (termination and firing order), `TimerCallbacks` (callbacks that use the queue), `TimerLinks` (the
  tree as pointers), `TimerQueueObject` (the queue object).
- **Kernel calls** (`ffsys/kcall.h`). Owner, submission queue, workers, completion queue, reader:
  `KernelCalls` has one step per shared-memory action, `KernelCallProofs` the invariant over every
  interleaving, `KernelCallTheorems` what follows from it, `KernelCallQueues` what each call of the owner
  changes and what goes through the two queues.
- **Directory scanner** (`ffsys/dirscan.h`). `FileNameOrder` (the comparator), `DirScan` (names and
  offsets packed in bytes, the sort), `DirScanner` (the scanner object).
- **Smaller ones.** `SendStream` (sends that would block, `ffsys/socket.h`), `KeyDecoder` and
  `KeyTable` (terminal keys, `ffsys/std.h`), `TimerThread` and `TimerFirings` (the Windows timer thread and what it fires,
  `ffsys/timer.h`), `EnvExpand` (`$VAR` expansion, `ffsys/environ.h`).

Functions of ffbase, whose source is not part of this model, enter by their contracts:
`ffstr_splitbyany` and `ffs_rfindany` as defined functions, rebalancing and unlinking of the
red-black tree as a parameter that keeps the in-order sequence (`TimerQueue.Lawful`,
`TimerLinks.Realizes`), `ffsort` as a
parameter that sorts by any total preorder (`DirScan.Sorts`), the ring queues as bounded FIFOs.
What the operating system answers is a parameter everywhere.

Where the code does not do what its documentation says:

- `FFPATH_FORCE_BACKSLASH` with slash-only splitting writes a separator that is not recognised when
  the output is rescanned. `MeaningPreservedIff` and `SimpleIsRootedIff` say that this is the only
  reason for which the two theorems fail, and `WritesSeparatorsFlags` which flags bring it about.
- `ffpath_norm` walks back over a table that is not compacted. `FollowsIff` says exactly when its
  output is right all the way; `SecondUpOnTexts`, `EmptyOnTexts` and `ThirdUpOnTexts` give families of
  texts on which it removes the wrong number of characters, wraps its index around, or reads outside
  the table. On Windows the result may be read as a drive, so that a relative path becomes an absolute
  one (`DriveAppears`; `TrackedResult` says that this is the only reason); in place, a drive without a
  separator loses a character (`DriveInPlaceLoses`). With strict checking, "./.." passes and its result
  is refused (`StrictRefusesItsResult`). A root of one character is written without a check of the
  capacity.
- Re-arming a periodic timer takes an unsigned maximum, which is wrong exactly when a wrap-around lies
  between its two arguments (`RearmedIsLaterIff`); `FiresOnceIff` says when a timer then fires more
  than once in one call.
- The busy check of a call object covers only a part of its way. Outside it a second call returns
  argument bytes as a result, or the result too early, or is accepted again: `BusyIff`, `GarbageIff`,
  `EarlyIff`, `AcceptedAgainIff`, each with a run that leads there.
- The key decoder reports "not enough data" for a virtual key or a paste only after its first byte,
  and an error when it is cut off later; cut-off characters are reported as such throughout: `CutOff`.
  Five families of sequences that the table leaves out are decoded as a modifier without a key:
  `StrayIsDecoded`; `IsKeyIff` says that these and the table are all that is decoded as a key.
- On Windows a negative period is documented as an interval, but the time set is then a date, so the
  timer fires at once: `DueAsPromisedIff`. A timer that fires after new data was stored for another
  Start, which is not executed yet or has failed, posts the new data: `PostsLastStored`,
  `WrongDataIsPosted`.

## Model

| member | source | states |
|---|---|---|
| `PathTheorems.MeaningPreserved` | ffsys/path.h:283-386 | for every text, the normalized text denotes the same lexical location, and is absolute exactly when the input is |
| `PathTheorems.MeaningPreservedIff` | ffsys/path.h:283-386 | that this holds for all inputs if and only if the written separator is one that splits |
| `PathTheorems.UnsplittableSeparator` | ffsys/path.h:362-376 | for the one other combination of flags, every path of two names is turned into a single name |
| `PathTheorems.NormalizedIsCanonical` | ffsys/path.h:306-378 | but for a leading ".", the names of the output are exactly those of the location that the input denotes |
| `PathTheorems.Shortest` | ffsys/path.h:306-378 | no list of components that leads to a location is shorter than its names, and no other list is as short |
| `PathTheorems.NormalizedIsShortest` | ffsys/path.h:306-378 | of all texts for one location the normalized one has the fewest names, not counting a leading ".", and a text with no more names has the same ones |
| `PathTheorems.NormalizedIsNormalForm` | ffsys/path.h:306-378 | no empty or "." component except at the start, ".." only as an initial run of a relative path, none of them when simplified |
| `PathTheorems.FixedPoints` | ffsys/path.h:306-378 | a text is left unchanged if and only if it is in normal form, simplified paths included |
| `PathTheorems.Idempotent` | ffsys/path.h:306-378 | normalizing twice is normalizing once, for every flag set without disk letters, also where the written separator does not split |
| `PathTheorems.SimpleIsRooted` | ffsys/path.h:310-360 | normalizing a rooted path gives one separator and then the simplified rest, byte for byte, for every input |
| `PathTheorems.SimpleIsRootedIff` | ffsys/path.h:310-360 | that this holds for all inputs if and only if the written separator splits |
| `PathTheorems.UnsplittableRoot` | ffsys/path.h:326-376 | otherwise the root of "/x/.." is itself removed and nothing is left |
| `PathTheorems.SimpleStaysBelow` | ffsys/path.h:310-360 | a simplified path has no leading separator, no "", "." or "..", and leads below its base to where the input leads below the root |
| `PathTheorems.RoomBounds` | ffsys/path.h:362-385 | the output is never longer than the room it needed on the way, and that never exceeds the input's length |
| `PathTheorems.ComponentsComeFromInput` | ffsys/path.h:306-376 | every component of the output is one of the input, its separator read or replaced as the flags ask |
| `PathTheorems.SeparatorsAreKept` | ffsys/path.h:364-373 | without forcing, each kept component keeps the separator it had |
| `PathTheorems.SeparatorsAreForced` | ffsys/path.h:364-373 | with forcing, every separator in the output is the one that the flags name, slash before backslash |
| `PathNormalize.NormalizedIsStack` | ffsys/path.h:306-378 | the byte-level loop writes the text of the stack that a machine on components ends with, and that stack is normal |
| `PathNormalize.DotDotIsPop` | ffsys/path.h:326-360 | rescanning the output backwards at ".." pops, keeps, replaces or extends exactly as the top of the stack demands |
| `PathSyntax.WritesSeparatorsFlags` | ffsys/path.h:288-298 | which raw flags, on which system, make the written separator one that does not split |
| `PathSyntax.TextOfParse` | ffsys/path.h:306-308 | splitting loses nothing: the components joined are the text |
| `PathSyntax.ParseOfText` | ffsys/path.h:306-308 | joined well-formed components split into themselves |
| `PathFlags.MeaningOnFlags` | ffsys/path.h:240-386 | on raw flags: with neither simplifying nor drives, and a written separator that splits, the location is preserved for every text |
| `PathFlags.TwoModesOnFlags` | ffsys/path.h:240-386 | on raw flags: setting the flag for simplifying gives what normalizing under "/" gives, without the root, byte for byte |
| `PathFlags.SplitsAt` | ffsys/path.h:290-298 | which characters split, for all flags and both systems |
| `PathFlags.WritesFor` | ffsys/path.h:364-373 | which separator is written for one that was read, for all flags |
| `PathFlags.DoubleBackslash` | ffsys/path.h:296-304 | a text is passed through if and only if drives are handled and it is longer than two characters and starts with two backslashes; it is then unchanged |
| `PathFlags.BetweenNames` | ffsys/path.h:271-280 | for all names: "x/./y" and "x//y" become "x/y", and "x/../y" becomes "y" |
| `PathFlags.InFront` | ffsys/path.h:271-280 | for all names: "./x/y" and "../x/y" stay as they are |
| `PathFlags.UpInFront` | ffsys/path.h:271-280 | for all names: "./../y" becomes "../y", and "/../y" becomes "/y" |
| `PathDrives.DriveIsRoot` | ffsys/path.h:248-378 | a drive is a root: for every text after it, the drive stays and the text is simplified, byte for byte |
| `PathDrives.DriveMeaning` | ffsys/path.h:248-378 | the drive stays, and what follows leads to the same location below it |
| `PathDrives.DriveIdempotent` | ffsys/path.h:306-378 | normalizing a path with a drive twice is normalizing it once |
| `PathDrives.DriveIsSkipped` | ffsys/path.h:310-320 | a simplified path loses its drive, and is then the simplified rest if no other drive is in it |
| `PathDrives.SecondDriveIsRoot` | ffsys/path.h:310-344 | a second drive right after it is not removed, but is a root |
| `PathDrives.LaterDriveStays` | ffsys/path.h:310-320 | a drive that does not come first, and is not reached by "..", is a name like any other |
| `PathDrives.NoDriveNoChange` | ffsys/path.h:296-352 | for every text without a drive and without a double backslash in front, handling drives changes nothing |
| `PathInPlace.Normalize` | ffsys/path.h:283-386 | for every input, capacity and flags, whether or not the buffers are one: -1 exactly when the needed room exceeds the capacity, else the normalized bytes; nothing is written past the needed room; a capacity of the input's length never fails |
| `PathInPlace.Rewrite` | ffsys/path.h:306-385 | the loop, in place or not: -1 exactly when the longest text on the way exceeds the capacity, else the bytes of the run |
| `PathInPlace.Iterate` | ffsys/path.h:306-376 | one iteration in place: refused exactly when the new text does not fit, the write index never passes the read offset, the unread input stays intact |
| `PathInPlace.AtParent` | ffsys/path.h:326-360 | the branches at "..", as index moves on the buffer |
| `PathInPlace.Emit` | ffsys/path.h:362-376 | the overlapping move writes the component and its separator and leaves all input not yet read intact |
| `PathInPlace.Decide` | ffsys/path.h:310-360 | which components are skipped, written, or move the index back, with the simplify and disk switches |
| `PathInPlace.Split` | ffsys/path.h:306-308 | the next component and the rest |
| `PathInPlace.Copy` | ffsys/path.h:300-305 | device and UNC paths are copied verbatim, or -1 if they do not fit |
| `PathNorm.BuildTable` | ffsys/path.h:486-513 | the table holds every component's end with "." and ".." flagged; it fails exactly with more than 254 components |
| `PathNorm.SpansCover` | ffsys/path.h:491-513 | the components cover the text after the root exactly, separated by single separators and containing none |
| `PathNorm.WordParts` | ffsys/path.h:488-507 | for inputs up to 4095 bytes an offset fits the 12 bits below the flags, and both are read back |
| `PathNorm.RootIsStable` | ffsys/path.h:445-484 | a root that was written is read back as the same root, whatever follows it |
| `PathNormRules.DriveIsKept` | ffsys/path.h:460-470 | two texts get the same drive if and only if they start with the same letter up to case; it is written in upper case, with a colon and a backslash |
| `PathNormRules.DriveLetters` | ffsys/path.h:460-462 | which texts start with a drive: a letter of either case and a colon, by their codes |
| `PathNormRules.OtherRoots` | ffsys/path.h:472-482 | all other texts: what is written and what is read for the root |
| `PathNormRules.DriveEnd` | ffsys/path.h:470 | what is read of a drive: two characters, and one separator of either kind |
| `PathNormRules.CopiedThrough` | ffsys/path.h:447-458 | which texts are passed through |
| `PathNormRules.Separators` | ffsys/path.h:442-496 | which characters split and which one joins |
| `PathNormRules.BetweenNames` | ffsys/path.h:415-426 | for all names, rooted or not: nothing and "." between names are left out, ".." removes the name before it, a trailing separator goes |
| `PathNormRules.InFront` | ffsys/path.h:415-426 | for all names: a leading "." and ".." are kept in a relative path, merged if there are more, and left out after the root |
| `PathNormMethod.Rules` | ffsys/path.h:388-437 | which rules hold for which flags, and by default the platform |
| `PathNormMethod.NormAs` | ffsys/path.h:439-568 | the call under given rules, for every input, length and capacity, in place or not |
| `PathNormText.SplitJoin` | ffsys/path.h:491-513 | joined components are split into themselves again, whatever is before them |
| `PathNormText.WrittenMeaning` | ffsys/path.h:445-567 | the text of a stack, read again, has the same root and leads where the stack leads, if and only if its first name is not read as a drive |
| `PathNormOutput.StepExact` | ffsys/path.h:517-565 | one iteration does what the stack machine does, refusals included, if and only if at ".." the table entry at the walk-back index has the flags and length of the top of the stack |
| `PathNormOutput.UpOnName` | ffsys/path.h:543-556 | ".." on a name: the name is removed if and only if the entry is unflagged and as long; otherwise the text is wrong |
| `PathNormExact.FollowsIff` | ffsys/path.h:515-567 | for every input, capacity and strictness: the text is that of the stack machine after every component if and only if every ".." meets a fitting entry, none is forbidden, and the texts fit the buffer |
| `PathNormExact.PassIsMachine` | ffsys/path.h:515-567 | where every ".." meets a fitting entry, the pass ends with the machine's text if all is allowed and fits, and is refused exactly otherwise |
| `PathNormOutput.MachineKeepsLocation` | ffsys/path.h:526-557 | for every list of components, the machine's stack is in normal shape and leads where the components lead |
| `PathNormExact.ClassIsNormalized` | ffsys/path.h:515-567 | names, then at most as many "..", then a tail without "..": the stack-machine normal form if its texts fit the buffer, for every capacity, and refused if not |
| `PathNormExact.EnoughRoom` | ffsys/path.h:559-560 | room for the root and the components as they are is enough on the whole way |
| `PathNormExact.StrictRefuses` | ffsys/path.h:534-541 | with strict checking, more ".." than names before them are refused, whatever follows and whatever the room |
| `PathNormExact.EmptyComponentMisleads` | ffsys/path.h:526-556 | in every list of components that starts with a name, an empty one and "..", one character is removed instead of the name |
| `PathNormExact.SecondUpMisleads` | ffsys/path.h:543-554 | in every list of components that starts with "x", "..", "y", "..", the second ".." removes as many characters as x has; if x is longer, the index wraps around |
| `PathNormTheorems.SecondUpOnTexts` | ffsys/path.h:543-554 | the same for every text "x/../y/..", whose right result is empty |
| `PathNormTheorems.EmptyOnTexts` | ffsys/path.h:526-556 | for every text "x//.." one character of x is removed, where the right result is empty |
| `PathNormExact.ThirdUpGoesAstray` | ffsys/path.h:543-554 | one more ".." then reads outside the table if and only if the two names differ in length |
| `PathNormTheorems.ThirdUpOnTexts` | ffsys/path.h:543-554 | the same for every text "x/../y/../.." |
| `PathNormMethod.Norm` | ffsys/path.h:388-568 | for all flags, and every input, length and capacity, in place or not: the verbatim copy, -1 for a root, length or number of components too large, else what the pass yields for the components seen, a wrapped index as a negative result; and exactly when the code leaves the table or the buffer |
| `PathNormTheorems.DriveInPlaceLoses` | ffsys/path.h:460-470 | in place, a drive that no separator follows is seen as an empty component and the rest without its first character |
| `PathNormMethod.NormRest` | ffsys/path.h:486-567 | the same for everything after the root |
| `PathNormTheorems.NormTextMeaning` | ffsys/path.h:429-568 | for every text, the text of its stack has the same root and leads to the same location, if and only if it does not become a drive |
| `PathNormTheorems.TrackedResult` | ffsys/path.h:429-568 | for every text that is tracked: refused if not allowed, else that text, which denotes what the input denotes if and only if it does not become a drive |
| `PathNormTheorems.DriveAppears` | ffsys/path.h:460-470 | for all names: "x\..\d" with a d like "c:" is relative, and its result is read as a drive |
| `PathNormTheorems.NormTwice` | ffsys/path.h:429-568 | a result is read again and left as it is, unless it became a drive; with strict checking it is refused if and only if it starts with ".." |
| `PathNormTheorems.StrictRefusesItsResult` | ffsys/path.h:534-546 | strict checking lets "./.." pass and refuses the result |
| `PathNormTheorems.ClassResult` | ffsys/path.h:429-568 | for every text of the class and every capacity: that result, with what it denotes, or refused exactly for lack of room |
| `PathNormTheorems.InputLengthIsEnough` | ffsys/path.h:429-568 | a buffer of the length of the input is enough, and one more for a drive without a separator |
| `PathNormTheorems.StrictResult` | ffsys/path.h:534-541 | for every text with more ".." than names before them, strict checking refuses, whatever follows |
| `PathNormMethod.Output` | ffsys/path.h:515-567 | the loop over the packed words computes the pass over the components, although the input may be the buffer that is written |
| `PathNormMethod.Iterate` | ffsys/path.h:517-565 | one iteration in place: the input not yet read stays intact |
| `PathNormMethod.Decide` | ffsys/path.h:526-541 | the branches of one iteration, for every state, a wrapped index included |
| `PathNormMethod.WalkBack` | ffsys/path.h:543-555 | flags and length read from the words at the walk-back index, and the index moves |
| `PathNormMethod.WritePart` | ffsys/path.h:559-564 | -1 exactly when separator and component do not fit by the 32-bit sum, else both are appended; a write at a wrapped index is told apart |
| `TimerQueue.RunOwned` | ffsys/timerqueue.h:66-138 | over every run of add, re-add, remove and fire steps, so at every callback: a node is active exactly when it is linked, and it is linked once |
| `TimerQueue.ApplyOwned` | ffsys/timerqueue.h:66-92 | each operation keeps that, although re-adding overwrites the key of a linked node |
| `TimerQueue.FireOwned` | ffsys/timerqueue.h:124-134 | firing keeps that, and unlinks exactly the first node, unless it is periodic |
| `TimerOrder.ComparesExactly` | ffsys/timerqueue.h:41-44 | the wrapping comparison agrees with the true times if and only if they are within half the range |
| `TimerOrder.DescendSorts` | ffsys/timerqueue.h:29-56 | the descent puts a new node at its place by true time, after equal ones |
| `TimerOrder.RunOrdered` | ffsys/timerqueue.h:66-138 | over every run in which linked nodes stay within 2^31 ms, the tree is in the order of true due times, first linked first among equal ones |
| `TimerProcess.RearmedIsLighter` | ffsys/timerqueue.h:121-132 | for all 32-bit values, re-arming lowers the node's weight 1 + (now - key mod 2^32), or leaves it not expired |
| `TimerProcess.FireDecreases` | ffsys/timerqueue.h:102-136 | each iteration strictly lowers the sum over expired nodes, wrap-around included, so a call terminates |
| `TimerProcess.ProcessOwned` | ffsys/timerqueue.h:98-138 | a call keeps ownership and ends with the first node not expired |
| `TimerProcess.ProcessInOrder` | ffsys/timerqueue.h:98-138 | within a window, nothing fires before it is due, and calls are in non-decreasing true time, first linked first among equal ones |
| `TimerProcess.ProcessEachNode` | ffsys/timerqueue.h:98-138 | a node not due is untouched; a due one-shot fires exactly once and ends inactive; a due periodic one fires and ends linked for later than now |
| `TimerProcess.AddedFiresWhenDue` | ffsys/timerqueue.h:85-92 | an added node fires in a call for a time if and only if its interval has passed by then |
| `TimerProcess.AddedRepeatsIffPositive` | ffsys/timerqueue.h:85-138 | once it has fired, an added node is linked for a later time with its interval if that was positive; otherwise it has fired once and is gone |
| `TimerProcess.AtMostOnce` | ffsys/timerqueue.h:102-136 | if no expired key is ahead of now and no candidate overflows, each node fires at most once per call |
| `TimerProcess.RefiresIff` | ffsys/timerqueue.h:121-132 | for all 32-bit values, a periodic node is expired again right after it is re-armed if and only if its next key is not below the key of the next millisecond and its interval is not longer than it is late |
| `TimerProcess.FiresOnceIff` | ffsys/timerqueue.h:98-138 | within a window, a due periodic node fires exactly once in a call if and only if it is not one that refires |
| `TimerProcess.FiresAgain` | ffsys/timerqueue.h:121-132 | a 10 ms timer due 100 ms before the wrap-around fires more than once in a call 5 ms after it |
| `TimerProcess.RearmedIsLaterIff` | ffsys/timerqueue.h:129-129 | the re-armed time is the later of the two candidates if and only if no wrap-around lies between them |
| `TimerProcess.RearmedTooEarly` | ffsys/timerqueue.h:129-129 | a 10 ms timer 3 ms before the wrap-around is re-armed for the next millisecond |
| `TimerLinks.PlaceLinksDescend` | ffsys/timerqueue.h:39-55 | storing the pointers where the descent stops links the new node as a leaf at its place, its parent pointer included, and changes nothing else |
| `TimerLinks.InsertNode` | ffsys/timerqueue.h:29-56 | the loop over child pointers turns a linked tree into the linked tree with the node added, left, right and parent pointers included |
| `TimerLinks.FirstNode` | ffsys/timerqueue.h:104-104 | the loop down the left pointers finds the first node in order |
| `TimerLinks.EveryBalancerIsRealized` | ffsys/timerqueue.h:58-62 | every balancer that keeps the order, however it uses the balancing data in the nodes, is realized by a change of their fields, so the queue object excludes none |
| `TimerLinks.HangsUnique` | ffsys/timerqueue.h:29-56 | the fields of the nodes determine the tree |
| `TimerQueueObject.Timers.Remove` | ffsys/timerqueue.h:66-74 | the node is not linked afterwards, and whether it was is returned |
| `TimerQueueObject.Timers.AddNode` | ffsys/timerqueue.h:78-83 | the node is linked once, all others as before |
| `TimerQueueObject.Timers.Add` | ffsys/timerqueue.h:85-92 | key, interval and link of the new state, also for a node that is linked already |
| `TimerQueueObject.Timers.FireFirst` | ffsys/timerqueue.h:124-134 | one iteration unlinks the first node and re-links it if it is periodic |
| `TimerQueueObject.Timers.Insert` | ffsys/timerqueue.h:81-82 | a node that is not linked is linked by the pointer descent, and is active |
| `TimerQueueObject.Timers.Process` | ffsys/timerqueue.h:98-138 | whatever the callbacks add, remove or fire: the loop takes exactly the steps of the trace, ends with the first node not expired, and with quiet callbacks makes and counts the calls that the order theorems describe |
| `TimerCallbacks.TraceEnds` | ffsys/timerqueue.h:98-138 | with any callbacks a call ends with the first node not expired, and at every step on the way nodes are active exactly when linked, and linked once |
| `TimerCallbacks.QuietTrace` | ffsys/timerqueue.h:98-138 | with callbacks that leave the queue alone it is the call of the order theorems |
| `KernelCallProofs.NextKeeps` | ffsys/kcall.h:85-214 | each of the fourteen steps keeps the invariant |
| `KernelCallProofs.RunKeeps` | ffsys/kcall.h:85-214 | the invariant holds in every state of every interleaving |
| `KernelCallTheorems.ExactlyOnce` | ffsys/kcall.h:126-214 | an unfinished call is in exactly one queue or thread; it runs and is handled at most once, exactly once if finished and not cancelled, and is never handled if cancelled before the reader's check |
| `KernelCallTheorems.CopiesByPlace` | ffsys/kcall.h:126-194 | an object is in no queue and no thread, or in exactly one |
| `KernelCallTheorems.BookIsHistory` | ffsys/kcall.h:126-214 | records of accepted calls only grow, and a finished one is never touched again |
| `KernelCallTheorems.AnswerAtRest` | ffsys/kcall.h:196-231 | an object at rest is never busy, and a result it answers with is that of the last accepted call on it |
| `KernelCallTheorems.AnswerIsTheOutcome` | ffsys/kcall.h:196-231 | the same in every state of every run, for every call under the owner's rule |
| `KernelCallTheorems.OutcomeIsDelivered` | ffsys/kcall.h:126-231 | after an accepted call, whatever all threads do: if the owner leaves the object alone, then once it is back it ran once, was handled once, and the next call answers with its result and error |
| `KernelCallQueues.CollectedOnce` | ffsys/kcall.h:206-214 | collecting a result frees the object: nothing else changes, and the next call on it is accepted if there is room |
| `KernelCallQueues.TurnedAway` | ffsys/kcall.h:181-194 | a call for which there is no room leaves the queues as they are and the object free |
| `KernelCallQueues.AcceptedIsQueued` | ffsys/kcall.h:181-231 | an accepted call is queued last, with its operation and argument, and no other object changes |
| `KernelCallQueues.CancelledIsFree` | ffsys/kcall.h:176-179 | cancelling at rest drops a result that was not collected: the next call is accepted if there is room |
| `KernelCallQueues.EveryOperation` | ffsys/kcall.h:85-137 | exactly the operations 1 to 7 may be called, and are run by a worker that has fetched them |
| `KernelCallQueues.FirstInFirstOut` | ffsys/kcall.h:126-174 | in every run both queues are first in, first out: what was put in is what was taken out and then what is queued; and posts are made and consumed as often as the completion queue was filled |
| `KernelCallTheorems.BusyIff` | ffsys/kcall.h:196-204 | busy is answered if and only if the object is between the worker's mark and the reader's clearing |
| `KernelCallTheorems.GarbageIff` | ffsys/kcall.h:181-214 | argument bytes are returned as a result if and only if the object is queued or running and not cancelled |
| `KernelCallTheorems.GarbageIsReached` | ffsys/kcall.h:181-214 | one accepted call is enough to get there |
| `KernelCallTheorems.EarlyIff` | ffsys/kcall.h:196-214 | in flight, a result is handed out before the handler has run if and only if the worker has stored it but not marked it, or the reader has cleared the mark, and it is not cancelled |
| `KernelCallTheorems.EarlyIsReached` | ffsys/kcall.h:126-214 | a run that gets there, for every result |
| `KernelCallTheorems.AcceptedAgainIff` | ffsys/kcall.h:176-204 | in flight, a call is accepted a second time, if there is room, if and only if it is cancelled and not busy |
| `KernelCallTheorems.AcceptedAgainIsReached` | ffsys/kcall.h:176-204 | a run that gets there |
| `KernelCallTheorems.NoOverflow` | ffsys/kcall.h:141-145 | whenever a worker adds to the completion queue there is room |
| `KernelCallTheorems.NoLostWakeup` | ffsys/kcall.h:139-174 | in every state with completions and a waiting reader, a post is pending or a worker is about to post |
| `KernelCallTheorems.NeverStuck` | ffsys/kcall.h:126-174 | while an accepted call is unfinished, some worker or the reader can take a step |
| `KernelCallTheorems.WorkDecreases` | ffsys/kcall.h:126-174 | every step of a worker or the reader lowers the remaining work |
| `KernelCallTheorems.CallsFinish` | ffsys/kcall.h:126-174 | from every reachable state and under every schedule, the threads take boundedly many steps without the owner, and when they can take no more, every accepted call is finished |
| `FileNameOrder.CompareNames` | ffsys/dirscan.h:49-72 | the loop over two NUL-terminated strings computes the order of their names |
| `FileNameOrder.FoldsLetters` | ffsys/dirscan.h:56-60 | single bytes compare equal without case if and only if they are the same or the two cases of one letter; others are in the order of their codes |
| `FileNameOrder.NameLess` | ffsys/dirscan.h:49-72 | a name is less if and only if it is so at the first difference of letters, or has the same letters and lower case at the last difference |
| `FileNameOrder.Antisymmetric` | ffsys/dirscan.h:49-72 | exchanging the names negates the result, and only identical names compare equal |
| `FileNameOrder.Transitive` | ffsys/dirscan.h:49-72 | the order is transitive |
| `DirScan.PackedView` | ffsys/dirscan.h:197-218 | the recorded offsets denote the packed names, in order |
| `DirScan.OffsetOrderIsTotal` | ffsys/dirscan.h:74-83 | each comparator is a total preorder on offsets: by name, without regard to case, and with directories first |
| `DirScan.CompareOffsets` | ffsys/dirscan.h:74-83 | the comparator of the plain scanner computes that order from the bytes |
| `DirScan.CompareMarked` | ffsys/dirscan.h:280-290 | the comparator of the extended scanner computes that order, bit 31 masked |
| `DirScan.SortedView` | ffsys/dirscan.h:280-336 | sorting the offsets puts the entries in order and loses and doubles none |
| `DirScan.DirectoriesComeFirst` | ffsys/dirscan.h:280-290 | in such a list no directory follows a file, and within a kind entries are in name order |
| `DirScan.ListedWithoutCase` | ffsys/dirscan.h:74-83 | in a list without regard to case, names that differ in more than case are in the order of the first letters in which they differ |
| `DirScanner.ListedIff` | ffsys/dirscan.h:199-209 | on raw flags, how often a name is listed: as often as the system returns it, or never, if it is "." or ".." without the flag for these, or does not match |
| `DirScanner.KeptOne` | ffsys/dirscan.h:197-209 | which names are listed |
| `DirScanner.KeptAppend` | ffsys/dirscan.h:160-218 | an entry is listed or not whatever the others are, and the order stays |
| `DirScanner.Collect` | ffsys/dirscan.h:160-218 | names and offsets of exactly the kept entries, in the order of the system |
| `DirScanner.CollectOne` | ffsys/dirscan.h:197-218 | one entry is skipped, or appended with its offset |
| `DirScanner.ReadIndex` | ffsys/dirscan.h:325-328 | the stored 32-bit words read back as the offsets |
| `DirScanner.Scanner.Open` | ffsys/dirscan.h:89-245 | for all flags: fails exactly when something it needs fails, and then leaves all but the index as it was; else the listing holds each listed name as often as the system returned it, in comparator order or as returned |
| `DirScanner.Gather` | ffsys/dirscan.h:160-220 | names and offsets of the kept entries, sorted unless not wanted |
| `DirScanner.Scanner.Next` | ffsys/dirscan.h:254-263 | the next name of the listing, or none at its end; the listing is unchanged |
| `DirScanner.Scanner.Reset` | ffsys/dirscan.h:265-268 | the same listing from its start |
| `DirScanner.Scanner.MarkLast` | ffsys/dirscan.h:319-322 | setting bit 31 of the last offset marks that entry and changes no name |
| `DirScanner.Scanner.OpenExtended` | ffsys/dirscan.h:298-336 | for all flags: fails exactly when something it needs fails, with the names freed; else each listed name, marked if and only if it is a directory, in order, directories first if asked |
| `DirScanner.Scanner.NextExtended` | ffsys/dirscan.h:339-350 | the next name and its mark |
| `DirScanner.Scanner.At` | ffsys/dirscan.h:353-362 | the i-th entry, as the i-th call of the iteration returns it, or none at the end, wherever its position fits into 32 bits; beyond that, the entry read at the position cut to 32 bits |
| `SendStream.Shift` | ffsys/socket.h:560-566 | drops the smaller of count and length from one buffer |
| `SendStream.ArrayShift` | ffsys/socket.h:1075-1087 | drops exactly min(skip, total) bytes of the concatenation; returns 0 if and only if nothing is left |
| `SendStream.Task.SendvAsync` | ffsys/socket.h:439-481 | the branches of a vectored call, as a step of the send state, the reply and the bytes handed over |
| `SendStream.SendAsync` | ffsys/socket.h:405-437 | the same for one buffer |
| `SendStream.FirstByte` | ffsys/socket.h:460-470 | the first byte of the first buffer that is not empty |
| `SendStream.ReplyTells` | ffsys/socket.h:405-481 | a write is in flight exactly for the error that says so; a count is that of bytes handed over by this call, or by the completed write; an error hands nothing over |
| `SendStream.ReplyIff` | ffsys/socket.h:405-481 | when a call counts, waits or fails, by what the kernel answers |
| `SendStream.RetryInSync` | ffsys/socket.h:405-481 | one retry, whatever its outcome, keeps the kernel's bytes a prefix: the returned count and the byte in flight |
| `SendStream.StreamIntegrity` | ffsys/socket.h:405-481 | for every sequence of outcomes the kernel is handed exactly a prefix of the data, of the returned length plus at most the one byte that is in flight or whose write failed |
| `SendStream.StreamArrives` | ffsys/socket.h:405-481 | with two favourable answers for each byte, all data is counted as sent and the kernel has exactly it |
| `SendStream.Drive` | ffsys/socket.h:439-481 | a caller on real buffers that shifts and retries does that, and keeps exactly the unsent rest |
| `KeyDecoder.ReadBounds` | ffsys/std.h:432-594 | a decoded key consumes between one byte and all of them |
| `KeyDecoder.DependsOnConsumed` | ffsys/std.h:432-594 | the result is the same whatever follows the consumed bytes |
| `KeyDecoder.EventDecodes` | ffsys/std.h:400-594 | each documented sequence decodes completely to the code of its key and modifiers |
| `KeyDecoder.StreamRoundTrip` | ffsys/std.h:400-594 | every list of key events comes back from the concatenation of its sequences |
| `KeyDecoder.CodesIdentify` | ffsys/std.h:20-71 | different events have different codes, except both ends of a paste |
| `KeyDecoder.CutOff` | ffsys/std.h:432-594 | for every event and every cut: "not enough data" if and only if it is after one byte or in a character, with or without Alt; otherwise an error |
| `KeyDecoder.PlainByteIff` | ffsys/std.h:432-594 | a byte below 0x80 is decoded as itself whatever follows if and only if it is neither NUL nor ESC |
| `KeyTable.IsKeyIff` | ffsys/std.h:400-594 | data is decoded as a key if and only if it starts with a sequence of the table or one of the five families that it leaves out |
| `KeyTable.KeyIsInTable` | ffsys/std.h:400-594 | apart from these, every key decoded is that of a sequence in the table with which the data starts, and exactly that is consumed |
| `KeyTable.StrayIsDecoded` | ffsys/std.h:556-594 | these are decoded as a modifier without a key |
| `KeyTable.Arrows` | ffsys/std.h:400-427 | codes and lengths of the arrow keys, HOME and END, in numbers |
| `KeyTable.Editing` | ffsys/std.h:400-427 | the same for DEL, INS, PGUP, PGDN, F1 to F4 |
| `KeyTable.Functions` | ffsys/std.h:400-427 | the same for F5 to F12 and the paste marks |
| `KeyTable.Characters` | test/std.c:20-39 | the same for characters with and without Alt, and for what is no key |
| `KeyTable.ModifierAdds` | ffsys/std.h:451-461 | in each of the three forms a modifier adds its bits: the digit is one more than Shift, twice Alt and four times Ctrl |
| `KeyTable.CharIff` | ffsys/std.h:26-30 | a character is one to four bytes with the documented leading bits |
| `TimerThread.RunKeeps` | ffsys/timer.h:72-138 | the handshake's invariant holds in every run with interleaved firings |
| `TimerThread.Handshake` | ffsys/timer.h:72-153 | commands, with the period and data stored for them, are executed in the order issued, each once; each call returns its own command's result; nothing is issued or executed after Exit |
| `TimerThread.SignalsArePaired` | ffsys/timer.h:72-138 | no auto-reset event is set while it is set, and none is left over between calls |
| `TimerThread.NeverStuck` | ffsys/timer.h:72-138 | while a call is not over, a step of the thread or the caller is enabled |
| `TimerThread.StepsLower` | ffsys/timer.h:72-138 | in every run every such step lowers the number of steps left, so that every call ends |
| `TimerFirings.SetIff` | ffsys/timer.h:72-153 | in every run the timer is set if and only if a successful Start is the last command that succeeded, closing has not begun, and it repeats or has not fired |
| `TimerFirings.SetAsAsked` | ffsys/timer.h:91-97 | in every run a timer that is set has the period of its Start if that is positive, and else does not repeat |
| `TimerFirings.FiringBelongs` | ffsys/timer.h:47-112 | every firing belongs to a successful Start with no successful command after it, so nothing fires after a successful Stop |
| `TimerFirings.OneShotFiresOnce` | ffsys/timer.h:91-97 | a Start with a period of 0 or less fires at most once |
| `TimerFirings.PostsLastStored` | ffsys/timer.h:180-186 | a firing posts the data of the last issued Start, so its own timer's if and only if that stored the same; if it is another Start, that one is not executed yet or has failed |
| `TimerFirings.WrongDataIsPosted` | ffsys/timer.h:180-186 | a run in which the timer of the first Start posts the data of the second |
| `TimerFirings.DueAsPromisedIff` | ffsys/timer.h:91-94 | the time set is the documented interval if and only if the period is not negative; otherwise the same number is set as a date |
| `EnvExpand.NextToken` | ffsys/environ.h:110-137 | a token is never empty, and token and rest are the text |
| `EnvExpand.NameCharacters` | ffsys/environ.h:124-131 | the characters of a name, by their codes |
| `EnvExpand.FindValue` | ffsys/environ.h:150-161 | the value of the first matching entry, or none if there is no match |
| `EnvExpand.DefinesIff` | ffsys/environ.h:150-161 | an entry defines a key if and only if it is that key, "=" and a value |
| `EnvExpand.Expand` | ffsys/environ.h:163-204 | succeeds if and only if the whole expansion and its NUL fit, and then writes just that |
| `EnvExpand.TextIsKept` | ffsys/environ.h:163-204 | text without "$" stays as it is |
| `EnvExpand.VariableIsReplaced` | ffsys/environ.h:163-204 | a variable is replaced by its value or by nothing, and the value is not expanded again |
| `EnvExpand.LoneDollarIsDropped` | ffsys/environ.h:110-137 | a "$" without a name is dropped |

## Left out

- Drives in `ffpath_normalize` that come first only after ".." has removed what was before them ("x/../c:/.."), and simplified paths in which another drive follows: the results on in-place use and room cover these, those on locations do not.
- PathNormMethod.Norm: a write at an index that has wrapped around is taken to leave the buffer, so capacities near 2^32 are not modelled.
- PathNormTheorems.NormTwice: is about the pass; the limits of 4095 characters and 254 components hold again, and a drive without a separator gets one character longer.
- PathNormExact.FollowsIff: is about the text after every component; inputs on which two wrong removals add up to a right end are wrong on the way.
- Red-black balancing: a parameter that keeps the in-order sequence and may use and change the balancing data in the nodes. Nodes are maps from identities to fields, not objects.
- `KernelCalls` is a step relation on values, not objects with fields, because its threads interleave. Synchronous mode (no queue), the semaphore, queues without a post, unknown operations and weak memory ordering are not modelled. That the owner does not reuse an object in flight, and keeps no more calls in flight than the completion queue holds, is a guard of the submit step.
- Directory reading, file information and wildcard matching are parameters of the scanner; names must total less than 2^31 bytes. Which allocation fails is a parameter, not how much memory there is.
- DirScanner.Scanner.At: needs an index within the list and a word that lies in the buffer, as the code does.
- SendStream.StreamIntegrity: a caller that goes on after a failed pending write is not covered; it would hand the byte over again. The UNIX variants are single system calls.
- Windows console keys; in the decoder, UTF-8 characters are recognised by the byte shapes in section 3 of RFC 3629, without excluding overlong forms.
- Failures of event and wait functions in the timer thread. Setting and cancelling the timer are taken to do nothing when they fail.
- `ffenv_expand` that allocates its result, Windows expansion, and locale functions.
- Wrappers of files, pipes, processes, signals, sockets, volumes, registry and the like, netlink and netconf parsing, time conversions, `ffdir_make_all`: no algorithm, or an easy one.
