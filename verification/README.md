# oddjob: a verified model

oddjob is a D-Bus service that lets unprivileged users ask for prepared, privileged jobs. This project models the
parts of its C code that carry real algorithms over mutable state, in Dafny 4.11, and proves what they promise:

| modules | C source | subject |
|---|---|---|
| `CStrings`, `Arrays` | `src/util.c` | C strings, the array resizer and its limit |
| `ArgParser`, `ArgLaws` | `src/util.c` | the command-line tokenizer, its reference, the quoting round trip |
| `ArgEscapes` | `src/util.c` | the tokenizer beside one whose escapes cover a single character |
| `LineCollector`, `LineLaws` | `src/util.c` | gluing lines out of `fgets` chunks |
| `GapBuffer`, `BufferLaws` | `src/buffer.c` | the byte buffer: contents, terminating NUL, growth |
| `Entries` | (several) | sequences of keyed entries, shared by the registry's arrays and the event lists |
| `Messages` | `src/oddjob_dbus.c` | message arguments, the reply of a job, and reading it back |
| `Tables`, `Registry`, `RegistryLaws` | `src/oddjob_dbus.c` | the four-level method registry as one finite map |
| `Dispatch`, `DispatchLaws` | `src/oddjob_dbus.c` | the message filter against that map |
| `Paths`, `PathLaws`, `MakePath`, `MakePathLaws` | `src/selinux.c` | slash collapsing and directory making |
| `Timeouts` | `src/mainloop.c` | how long `select` may sleep |
| `KeyedList`, `EventLoop`, `EventLaws` | `src/mainloop.c` | linked lists walked while callbacks push onto them |
| `Deviations` | all of these | concrete inputs on which the code does not do what it seems meant to |

`dafny verify dfyconfig.toml` checks everything.

## How the model is built

Each C function that works in place is a Dafny method that does the same steps: the tokenizer fills an array, the
buffer is a class over an array, the registry is a class whose fields the methods reassign, the event lists are
heap nodes with a `next` pointer. C structs that are stored by value inside arrays (the levels of the registry) are
datatype values in sequences. Every such method is tied by its contract to a function on values, and the laws are
proved about those functions: for all inputs, all runs and all reachable states.

Foreign code appears only as its answers: what connecting yields, whether a pattern matches a path (`fnmatch`), a
sender's uid and password entry, the kernel's `mkdir`, `chown` and `rmdir`, the SELinux policy's labels, the clock, the ready descriptors, the
exited children, and the bytes found in memory fresh from `malloc`. All of them are arbitrary; only the kernel is
assumed `Honest` (EEXIST is said of what exists, and a directory is made only where nothing was) and, where a law says
so, `MakesRooted` (nothing is made below what is no directory).

A program that ends itself, or does what C leaves undefined, is an outcome of its own: `Exited` (the resizer's limit
of 65535 elements), `Undefined` (memory written after it was given back), `NullService`, `Overrun`, `Aborted`.

## Where the code does not do what it seems meant to do

The code is modelled as it is written. Each place has a theorem saying exactly when it still does what is meant, and
`Deviations` has an input for which it does not.

- `src/buffer.c:95-97`: a prepend that finds more spare bytes in front than it needs does not raise the count, so the
  end of the contents falls off (`BufferLaws.PrependAddsInFrontExactlyWhen`, `Deviations.PrependLosesTheEnd`).
- `src/buffer.c:95-104`: no prepend writes a terminating NUL (`BufferLaws.PrependTerminatesExactlyWhen`,
  `Deviations.PrependCanTripTheGuard`).
- `src/oddjob_dbus.c:1274-1285`: the guard looks at non-empty buffers only; an emptied one still carries old bytes into
  the reply (`Messages.ReplyRoundTrip`, `Messages.EmptiedIsUnfaithful`, `Deviations.ClearedBufferStillSends`). It looks
  at the output buffer only; an error buffer without a NUL behind it is sent with what follows, or read past its end
  (`Messages.ReplyRoundTrip`, `Deviations.ErrorBufferHasNoGuard`).
- `src/oddjob_dbus.c:1123-1126`: removing the only method of a service while other services remain resizes the services
  by the wrong count, and exits or writes to freed memory (`RegistryLaws.RemoveDeletesExactlyWhen`,
  `RegistryLaws.RunRefinesMap`, `Deviations.TakingAServiceAwayFails`).
- `src/oddjob_dbus.c:664`: the test for a connection of no service can never hold
  (`DispatchLaws.StrayConnectionIgnoredExactlyWhen`, `Deviations.StrayCallFollowsNull`).
- `src/oddjob_dbus.c:711-718`: the kind of a message is tested only where it names an interface; one without is taken
  for a call whatever it is (`DispatchLaws.IgnoredExactlyWhen`, `Deviations.OtherKindIsTakenForACall`).
- `src/oddjob_dbus.c:728-731`: the text that goes with an unknown sender is an array nobody wrote to
  (`DispatchLaws.UnwrittenExactlyWhen`, `Deviations.SenderlessCallGetsUnwrittenText`).
- `src/util.c:209-212`: a last line without line end, after earlier lines, leaves no room for the closing NULL
  (`LineLaws.ClosedByNullExactlyWhen`, `Deviations.NoClosingNull`).
- `src/util.c:188-206`: a carriage return ends a line and a NUL ends a C string, and what the chunk holds behind either
  is lost, so the read buffer's size shows (`LineLaws.ChunkIndependence`, `Deviations.BufferSizeShows`,
  `Deviations.BufferSizeShowsBehindNul`).
- `src/util.c:302-311`: a backslash is meant to take the next character literally, and stays in force across ordinary
  characters and white space until a quote or a backslash. An accepted line is read as meant exactly when each backslash
  that opens an escape stands directly before one of these (`ArgEscapes.ReadsAsMeantExactlyWhen`,
  `Deviations.EscapedSpaceIsRefused`).
- `src/selinux.c:181-186`: when the owner cannot be set, a directory that was there before is removed too
  (`MakePathLaws.OldDirectorySurvivesExactlyWhen`, `Deviations.OldDirectoryGone`).
- `src/selinux.c:149-150`: the bit tested is one that block devices and sockets share with directories
  (`MakePathLaws.LeadAttemptsExactlyWhen`, `Deviations.FilesPassForDirectories`).
- `src/selinux.c:177`: whatever exists at the path passes for the directory, a regular file included
  (`MakePathLaws.SuccessMakesDirectories`, `Deviations.FilesPassForDirectories`).
- `src/selinux.c:164,176`: where SELinux is in use, the file creation context is cleared, not put back to what the
  caller had set (`MakePathLaws.EveryExitRestores`, `Deviations.CallersContextIsLost`).
- `src/mainloop.c:365-369`: only an enabled head of the list replaces the value the fold starts from
  (`Timeouts.SleepsUntilFirstTimeoutExactlyWhen`, `Deviations.DisabledHeadNeverSleeps`).

## Model

| member | source | states |
|---|---|---|
| Arrays.ResizeArray | src/util.c:147-173 | the new block holds the old prefix that fits and zeros behind it, the copied part of the old block is wiped unless its elements have no bytes, and the process exits exactly over the limit |
| ArgParser.ParseArgs | src/util.c:234-369 | for every command line the flag-and-buffer program returns what the one-pass recursive tokenizer returns: its words followed by exactly one NULL, or NULL and its error text |
| ArgParser.FlattenInto | src/util.c:243-313 | the scan ends, never in an arm that does not advance; at most one flag is set, the one of the reference's mode; the buffer holds the flattened line, no longer than the line, and zeros |
| ArgParser.CountWords | src/util.c:338-351 | the counting scan finds as many words as there are non-empty pieces between NULs |
| ArgParser.FillWords | src/util.c:352-368 | the filling scan stores exactly those words, in order, and leaves one NULL slot behind them |
| ArgParser.TokenizeIsSplitOfFlat | src/util.c:246-366 | tokenizing in one pass equals flattening to a NUL-separated buffer and splitting that |
| ArgParser.FlattenShrinks | src/util.c:243-313 | the flattened line is never longer than the line, so a zero tail remains to end the last word |
| ArgLaws.FailsExactlyWhenNotPlain | src/util.c:314-337 | a line is refused if and only if its scan ends inside quotes or an escape, and that mode alone determines the error |
| ArgLaws.QuotesKeepText | src/util.c:260-308 | between quotes of one kind all text is kept as it is, white space, backslashes and the other quotes included, and joins the word it stands in |
| ArgLaws.SeparatesExactlyWhen | src/util.c:298-311 | a character between two plain texts makes two words of them if and only if it is a carriage return, line feed, tab or space |
| ArgLaws.LettersStandForThemselves | src/util.c:309-311 | outside quotes and escapes, text without quotes, backslashes and blanks stands for itself |
| ArgLaws.UnclosedQuoteFails | src/util.c:317-330 | a quote that no other of its kind follows refuses the line, with the text that names that kind |
| ArgLaws.ParseAcrossBreak | src/util.c:298-308 | white space after a complete line separates: the words of the two parts concatenate |
| ArgLaws.EscapeRunsToNextSpecial | src/util.c:251-308 | an escape copies all text literally, white space included, up to and including the next quote or backslash |
| ArgLaws.UnclosedEscapeFails | src/util.c:331-336 | a backslash that no quote or backslash follows refuses the line, however much text comes after it |
| ArgEscapes.ReadsAsMeantExactlyWhen | src/util.c:249-337 | for every line: where each backslash that opens an escape stands directly before a quote or a backslash, the program reads it as the tokenizer whose escapes cover one character does; an accepted line only then, and a refused one is refused alike if and only if both scans end in the same mode |
| ArgEscapes.EscapeCoversOneExactlyWhen | src/util.c:251-312 | in force, an escape takes one character and ends, whatever follows, if and only if that is a quote or a backslash |
| ArgEscapes.StaysAhead | src/util.c:249-313 | once an escape has gone on, the characters shown beyond those of the other tokenizer keep the parity of each quote that the two modes require, and do not run out before the two show different characters |
| ArgLaws.RoundTrip | src/util.c:249-313 | printing words in single quotes and parsing gives the words back, for exactly the lists without an empty word |
| ArgLaws.PrintThenParse | src/util.c:340-366 | for every list of words, printing and parsing drops the empty words and changes nothing else |
| ArgLaws.ParsePrintParse | src/util.c:234-369 | the words of any accepted line, printed and parsed again, are the same words |
| LineCollector.CollectArgs | src/util.c:175-218 | for every stream and buffer size the vector holds the lines glued from the chunks, with a NULL behind them only where the code makes room for it, and the process exits exactly over the limit |
| LineLaws.ChunkIndependence | src/util.c:185-207 | for every stream, the lines are those of the reference without their NULs whatever the size of the read buffer, if and only if a carriage return is at most the last character and only NULs follow a NUL |
| LineLaws.SmallestBufferSplitsAtBoth | src/util.c:185-207 | read one character at a time, every stream is cut at each carriage return and line feed, and NULs alone are lost |
| LineLaws.ClosedByNullExactlyWhen | src/util.c:200-214 | for every stream and buffer size, the vector is closed by NULL if and only if the last chunk shows a line end or no chunk does; where no chunk hides text, if and only if the stream ends in a line end or has none |
| LineLaws.CollectedTextIsTheStream | src/util.c:185-217 | for every buffer size, the collected lines written out again are the whole stream if and only if it has neither NULs nor carriage returns |
| LineLaws.WrittenLinesComeBack | src/util.c:185-217 | for every buffer size, lines written out one a line are collected back unchanged if and only if none of them holds a NUL or a line end |
| GapBuffer.Buffer.constructor | src/buffer.c:45-66 | a new buffer is empty, terminated, and has the size asked for but at least 1024 bytes |
| GapBuffer.Buffer.AssureAvail | src/buffer.c:68-86 | the object gets room as the value does, keeping every live byte; nothing in the old block changes |
| GapBuffer.NiceSizeIsWhole | src/buffer.c:74-75 | blocks grow to whole units of 1024 bytes |
| GapBuffer.Buffer.Prepend | src/buffer.c:88-105 | the object changes as the value does on both paths, for given lengths and for strlen |
| GapBuffer.Buffer.Append | src/buffer.c:107-118 | the object changes as the value does, across reallocation |
| GapBuffer.Buffer.Consume | src/buffer.c:120-129 | dropping a prefix moves the start, dropping everything leaves it |
| GapBuffer.Buffer.Clear | src/buffer.c:131-135 | clearing leaves the memory and the start as they are |
| BufferLaws.AppendAddsBehind | src/buffer.c:107-118 | after every append the visible bytes are the old ones followed by the new ones, closed by a NUL |
| BufferLaws.PrependAddsInFrontExactlyWhen | src/buffer.c:95-104 | a prepend leaves new bytes followed by old ones if and only if it is empty or does not take the fast path; otherwise the end is cut off |
| BufferLaws.StepRefinesExactlyWhen | src/buffer.c:88-135 | each of the four operations leaves the byte sequence it is meant to leave, if and only if it is not a fast prepend |
| BufferLaws.RunRefinesExactlyWhen | src/buffer.c:45-135 | over every run the buffer follows the byte sequence call by call if and only if no call is a fast prepend |
| BufferLaws.RunStaysClosed | src/buffer.c:68-135 | over every run without prepends, non-empty contents are followed by a NUL |
| BufferLaws.PrependTerminatesExactlyWhen | src/buffer.c:95-104 | a prepend leaves terminated contents whatever memory malloc hands out, if and only if: on the fast path, the byte of the text that the count then ends before is NUL; on the slow one, no new block is needed and the byte the contents move up to is NUL |
| BufferLaws.GrowthIsPaid | src/buffer.c:71-84 | over every run from every state, 1024 times the reallocations plus what is paid ahead is at most the bytes added plus what was paid before |
| BufferLaws.AmortisedGrowth | src/buffer.c:71-84 | over every run from a new buffer, 1024 times the number of reallocations never exceeds the bytes ever added |
| Messages.FromMessage | src/oddjob_dbus.c:443-493 | the strings of a message become its arguments in order; the leading integer is the result, -1 if it is none, 0 if there is nothing; exit exactly over the limit |
| Messages.ResultIs | src/oddjob_dbus.c:445-461 | a leading integer is the result, -1 stands for anything else that leads, and 0 for an empty message, or where no integer is asked for |
| Messages.StringsAre | src/oddjob_dbus.c:462-492 | of any sequence of values exactly the strings are kept, in their order |
| Messages.SendSuccess | src/oddjob_dbus.c:1256-1300 | the reply to be sent, the abort, or the read past a block, as the two buffers determine it |
| Messages.ReplyEndsExactlyWhen | src/oddjob_dbus.c:1274-1298 | the program aborts if and only if there is output without a NUL right behind it; otherwise it reads past a block if and only if one of the two holds no NUL from its first visible byte on |
| Messages.ReplyRoundTrip | src/oddjob_dbus.c:1256-1300 | for all buffers, the reply is sent and read back as the result and the two contents if and only if both buffers are NUL-free and terminated; closed buffers are always sent, and in any reply that is sent each string is its buffer's contents if and only if that buffer is |
| Messages.GuardNeverFires | src/oddjob_dbus.c:1274-1277 | over every two runs without prepends, whatever was in each buffer's fresh memory, the builder neither aborts nor reads past a block |
| Messages.RepliesOfAppends | src/oddjob_dbus.c:1256-1300 | NUL-free bytes appended to two new buffers, whatever was in the fresh memory of each, are exactly the output and error strings that the caller reads |
| Messages.EmptiedIsUnfaithful | src/buffer.c:120-135 | a buffer emptied of visible bytes would still send old ones |
| Messages.DecodeReply | src/oddjob_dbus.c:1417-1458 | the caller gets the result, the first two strings where it asked for them and they exist, and the bus error's text instead of both when there is an error |
| Tables.Slot | src/oddjob_dbus.c:895-911 | find or create: the slot exists afterwards under its name, holding what was there or nothing, and storing into it is a map update of that level |
| Tables.CloseUp | src/oddjob_dbus.c:1024-1043 | shift and shrink takes out exactly one slot and keeps the order of the others |
| Registry.Context.AddMethod | src/oddjob_dbus.c:856-951 | adding updates the nested arrays as the chain of four updates, keeps the invariant, changes nothing visible when the connection fails, and exits exactly when some level is full |
| Registry.Context.RemoveMethod | src/oddjob_dbus.c:953-1135 | removing takes the method out with every level it empties and keeps the invariant, or ends as the wrong count at the service level makes it end |
| Registry.Context.TakeOutService | src/oddjob_dbus.c:1113-1134 | taking out an emptied service comes back if and only if it is the only one; with others it exits from the last slot and is undefined from any other |
| Registry.AddToObjects | src/oddjob_dbus.c:895-948 | below a service, adding is the chain of three updates unless a level is full |
| Registry.RemoveFromObjects | src/oddjob_dbus.c:979-1101 | below a service, removing closes up the arrays level by level, and finds the method exactly when it is registered |
| Registry.AddKeepsSound | src/oddjob_dbus.c:872-948 | after adding, names are unique at every level, no level is empty and none over the limit |
| Registry.RemoveKeepsSound | src/oddjob_dbus.c:1018-1134 | after removing, the same still holds: an emptied level never stays |
| RegistryLaws.AddIsMapUpdate | src/oddjob_dbus.c:872-950 | looked up under any key, the registry after adding is the old one with that key updated and every other key untouched |
| RegistryLaws.RemoveIsMapDelete | src/oddjob_dbus.c:966-1106 | looked up under any key, the arrays after the cascade are the old ones without that key |
| RegistryLaws.ServiceSlotIffOffered | src/oddjob_dbus.c:1103-1111 | a service has a slot if and only if some method of it is registered |
| RegistryLaws.ObjectSlotIffOffered | src/oddjob_dbus.c:1074-1101 | an object has a slot if and only if some method of it is registered |
| RegistryLaws.InterfaceSlotIffOffered | src/oddjob_dbus.c:1045-1074 | an interface has a slot if and only if some method of it is registered |
| RegistryLaws.StepRefinesMap | src/oddjob_dbus.c:856-1135 | each call that returns is one step of the finite map, a failed connection being no step |
| RegistryLaws.AddKeepsOrder | src/oddjob_dbus.c:872-948 | at each of the four levels, an add puts a name that is new there behind all others, and leaves every other order alone |
| RegistryLaws.RemoveKeepsOrder | src/oddjob_dbus.c:1079-1132 | a removal takes out a service or path that nothing is left under, and leaves the others in their order |
| RegistryLaws.RunKeepsOrder | src/oddjob_dbus.c:856-1135 | over every run that is survived, the services and the paths of each stand in the order in which those still offered were registered |
| RegistryLaws.RunRefinesMap | src/oddjob_dbus.c:856-1135 | a run from an empty registry is survived if and only if, along the run on the map, no removal takes the only key of a service while another has one and no add needs a new name in a level that is full; and then the arrays represent the run on the map and satisfy the invariant |
| RegistryLaws.LastMethodExactlyWhen | src/oddjob_dbus.c:1045-1106 | the cascade reaches the service if and only if no other key of that service is registered |
| RegistryLaws.RemoveDeletesExactlyWhen | src/oddjob_dbus.c:1108-1134 | a removal comes back if and only if its key is not the only one of its service while another service is registered, and then exactly that key is gone |
| RegistryLaws.AddReturnsExactlyWhen | src/oddjob_dbus.c:872-948 | an add comes back, connected or not, if and only if no level in which it needs a new name has as many names on the map as an array can hold |
| RegistryLaws.AddThenRemoveRestores | src/oddjob_dbus.c:879-948 | adding an absent key and removing it restores every array, order included; the removal comes back if and only if the service was there before or no service was |
| Dispatch.GuessInterface | src/oddjob_dbus.c:612-634 | an interface is returned if and only if it is the object's only one with the method |
| Dispatch.Filter | src/oddjob_dbus.c:636-854 | the filter's ending and everything it sends or calls are those determined by the arrays, the message and the outside answers |
| Dispatch.Handle | src/oddjob_dbus.c:736-851 | from the object lookup on, every path adds exactly one event to the log, that of the first check that fails or the handler's |
| DispatchLaws.DispatchAgreesWithMap | src/oddjob_dbus.c:736-849 | the arrays decide every call as the map does under the earliest pattern that matches, interface guessed or named |
| DispatchLaws.FirstMatchExactlyWhen | src/oddjob_dbus.c:737-742 | a pattern is the one that decides if and only if it matches and none registered before it does |
| DispatchLaws.OnlyPatternIsFirst | src/oddjob_dbus.c:737-742 | where one pattern at most matches, it decides whatever the order |
| DispatchLaws.IgnoredExactlyWhen | src/oddjob_dbus.c:668-718 | a message is left alone if and only if it lacks destination, path or member, names an interface without being a method call, or says that the connection is gone while the program watches for that |
| DispatchLaws.EndsExactlyWhen | src/oddjob_dbus.c:720-853 | what is not left alone is answered with exactly one event, unless it has more than 65535 strings or there is no service at all |
| DispatchLaws.CalledByMethodCall | src/oddjob_dbus.c:711-718 | a handler that runs was called by an addressed message with a sender, a method call wherever an interface is named |
| DispatchLaws.FirstFailingCheckAnswers | src/oddjob_dbus.c:727-850 | each check that fails first has its own error and text, read off the map and the message; when none fails the handler runs with the registered and reported values |
| DispatchLaws.CallIsAnsweredOnce | src/oddjob_dbus.c:654-853 | a call on a registered connection is handled with exactly one event, the one read off the map |
| DispatchLaws.HandlerRunsExactlyWhen | src/oddjob_dbus.c:754-850 | the handler runs if and only if the interface called or guessed has the method with a handler on the map, sender and user resolve, no argument has a line end and the count matches; and then with exactly the registered and reported values |
| DispatchLaws.SharedAfterEveryRun | src/oddjob_dbus.c:636-1135 | over every run of adding and removing from empty that survives, a call on a connection is answered as the run on the map says, for the earliest registered of the services that obtained the connection and under the earliest registered of its patterns that match |
| DispatchLaws.DispatchAfterEveryRun | src/oddjob_dbus.c:636-1135 | over every such run with private connections, exactly the offered services have one, and a call on it is answered as the run on the map says for that service, under the earliest registered of its patterns that match |
| DispatchLaws.GuessAgrees | src/oddjob_dbus.c:754-757 | guessing on the arrays names the one interface of the map that provides the method, or none |
| DispatchLaws.ConnectionFindsItsService | src/oddjob_dbus.c:657-663 | a connection that services obtained selects one of them, the only one if connections are not shared, and any other selects none |
| DispatchLaws.StepKeepsConnections | src/oddjob_dbus.c:872-1134 | each call that returns is one step of the services' connections: a new service obtains one, the last method's removal gives it up, all others stay; private ones are never shared |
| DispatchLaws.UnwrittenExactlyWhen | src/oddjob_dbus.c:725-734 | an answer carries the unwritten text if and only if the message is a call without sender within the argument limit |
| DispatchLaws.StrayConnectionIgnoredExactlyWhen | src/oddjob_dbus.c:657-666 | a message on a connection of no service is left alone if and only if it is not a call; a call goes to the last service, or to none at all |
| Paths.Collapse | src/selinux.c:129-138 | in place, the scan leaves the normal form followed by NULs up to the old end, touches nothing behind it, and ends, its step past the moved end included |
| Paths.DeleteAt | src/selinux.c:135 | one deletion takes out one character and moves the NUL down with the rest |
| PathLaws.NormalIsRender | src/selinux.c:132-137 | for every path the result is its components joined by single slashes, with a leading one if and only if the path had one |
| PathLaws.NormalKeepsComponents | src/selinux.c:132-137 | components and their order stay, no slash is left doubled or last, and collapsing again changes nothing |
| PathLaws.SameNormalExactlyWhen | src/selinux.c:132-137 | two paths collapse to the same one if and only if they have the same components and begin alike |
| PathLaws.FixedExactlyWhenCollapsed | src/selinux.c:132-137 | a path is left as it is if and only if no slash in it is doubled or last |
| MakePath.Mkdir | src/selinux.c:119-195 | for every path, return value, files, mask, context and calls are those of leading directories then last directory; one that does not fit is refused without effect |
| MakePath.Walk | src/selinux.c:141-172 | the byte-by-byte walk attempts exactly the leading prefixes, in order, until one is refused |
| MakePathLaws.LeadingAreAncestors | src/selinux.c:143-147 | the prefixes the walk stops at are the path's proper ancestors, the outermost first |
| MakePathLaws.WalkKeeps | src/selinux.c:147-170 | over every walk only new directories come, at the prefixes, and when it is not stopped all prefixes exist |
| MakePathLaws.LeadAttemptsExactlyWhen | src/selinux.c:149-153 | a leading path is attempted if and only if nothing with the tested bit is there; that differs from there being no directory if and only if a block device or socket is there |
| MakePathLaws.LeadingRights | src/selinux.c:160-162 | leading directories come to the rights 0711 |
| MakePathLaws.AsksAboutDirectory | src/selinux.c:155-159 | the policy is asked about a mode with the directory bit and otherwise the rights to be given |
| MakePathLaws.WalkAttemptsTheMissing | src/selinux.c:143-172 | a walk attempts the prefixes that were missing at its start, in order, all of them unless it is stopped |
| MakePathLaws.SuccessMakesEveryAncestor | src/selinux.c:140-189 | a return of 0 implies that the path has a component and that it and each of its ancestors exist |
| MakePathLaws.SucceedsExactlyWhen | src/selinux.c:140-193 | the return value is 0 if and only if the path fits, no mkdir is refused, and an owner that is given is accepted on the files as they stand then; attempted are the missing leading paths and the path itself up to the first refusal; after a refused owner the path is gone if and only if rmdir takes it |
| MakePathLaws.SuccessMakesDirectories | src/selinux.c:140-189 | in a tree of directories, a return of 0 implies that every proper ancestor is a directory, and that the path is one if and only if nothing else was there before; the tree stays one |
| MakePathLaws.EveryExitRestores | src/selinux.c:68-193 | on every exit the mask is the caller's, and the creation context is if and only if there was none, SELinux is off, or the path does not fit; mkdir was tried on strictly growing prefixes, each under the context the policy has for it, leading ones under the opened mask and never where a directory was |
| MakePathLaws.FilesOnlyCome | src/selinux.c:143-189 | nothing that was there changes, except that the path itself can go when its owner is refused |
| MakePathLaws.NoComponentsFails | src/selinux.c:132-180 | a path of slashes only, such as the root, is never made |
| MakePathLaws.OldDirectorySurvivesExactlyWhen | src/selinux.c:143-187 | what was at the path before the whole operation survives if and only if it is not found existing, refused its owner, and removed; in a tree that condition is about the caller's file system |
| Timeouts.Sleep | src/mainloop.c:342-376 | for every list and every clock, readings that fail included, the timeval is the split of the least of what is left of the enabled timeouts and, unless the head is enabled, of the base |
| Timeouts.SplitReadsBack | src/mainloop.c:359-368 | with division truncating toward zero, seconds and microseconds give back every number of milliseconds, negative ones included |
| Timeouts.SplitIsExact | src/mainloop.c:367-368 | seconds and microseconds are the milliseconds exactly, the microseconds less than a second and of the same sign |
| Timeouts.NowIsLatestReading | src/mainloop.c:350-352 | the time in force is the latest reading that did not fail |
| Timeouts.RunsOutExactlyWhen | src/mainloop.c:361-363 | nothing is left of a timeout if and only if its interval has passed since its start |
| Timeouts.SleepsUntilFirstTimeoutExactlyWhen | src/mainloop.c:358-370 | the sleep is the least of what is left of the enabled timeouts if and only if the head is enabled or that least is not above the base |
| KeyedList.List.Insert | src/mainloop.c:115-139 | an entry is pushed to the head unless its key is there, and the chain behind it stays |
| KeyedList.List.Unlink | src/mainloop.c:141-165 | exactly the first node with the key leaves the chain |
| EventLoop.Prepare | src/mainloop.c:287-341 | the three sets hold exactly the descriptors for which an enabled D-Bus watch or one of the program's own wants that readiness, hangup counting as readable, and maxfd is the greatest of them or -1 |
| EventLoop.Visit | src/mainloop.c:453-459 | callback, pushes and unlinking by key leave the rest of the walk in place |
| EventLoop.HandleWatches | src/mainloop.c:398-463 | the pointer walk over the watches has the outcome of serving the entries that were there at its start, and keys stay unique; the process exits if and only if more than 65535 D-Bus watches are gathered |
| EventLoop.HandleDbus | src/mainloop.c:464-466 | the log of hand-overs is exactly the gathered watches with their bits, in order, and keys stay unique whatever the callbacks push |
| EventLoop.MergeKeepsAllBits | src/mainloop.c:424-438 | a watch gathered again keeps its bits and gets the new ones, the others stay as they are |
| EventLoop.HandleChildren | src/mainloop.c:484-493 | the pointer walk over the children has the outcome of serving those that were there at its start, and keys stay unique |
| EventLoop.Handle | src/mainloop.c:379-494 | a whole turn with a log of all calls in order: watches, then the gathered D-Bus watches, then children; keys stay unique in both lists, so the next turn can follow; the process exits if and only if too many watches are gathered |
| EventLaws.WalkKeepsTheOthers | src/mainloop.c:402-463 | whatever callbacks push, exactly the finished entries are gone, the others keep their order behind the pushed ones, which all come from callbacks that ran, and keys stay unique |
| EventLaws.FiredExactlyOnce | src/mainloop.c:442-459 | every entry that is due is served once and no other one is |
| EventLaws.WatchPass | src/mainloop.c:398-463 | each of the program's own watches with a ready descriptor is called once with exactly the bits of the three sets and its data, each ready enabled D-Bus watch is gathered once with its bits, exactly those are gone whose call said so, and what calls pushed is there |
| EventLaws.ChildPass | src/mainloop.c:484-493 | each exited child is called once with its pid, status and data and is gone, the others stay, and what calls pushed is there |
| EventLaws.DbusPushes | src/mainloop.c:464-466 | handing over the gathered watches only puts in front what their callbacks, called with their bits, push |
| EventLaws.DbusPushesStay | src/mainloop.c:464-466 | and each such entry is there afterwards |
| EventLaws.KeysStayUnique | src/mainloop.c:115-494 | over every sequence of turns, pushes and removals keys stay unique in both lists |
| EventLaws.EveryTurnServesOnce | src/mainloop.c:379-494 | so every turn, whatever came before, calls each ready watch and each exited child exactly once and no other, with what is its own: the program's watches first, then D-Bus, then the children |
| Deviations.PrependLosesTheEnd | src/buffer.c:95-97 | a new buffer that "abc" was appended to and two bytes consumed from holds "c", and "x" after "x" was prepended |
| Deviations.PrependCanTripTheGuard | src/buffer.c:98-103 | one prepend to a new buffer leaves unterminated contents for some fresh memory |
| Deviations.ErrorBufferHasNoGuard | src/oddjob_dbus.c:1274-1285 | the same buffer as error buffer trips no guard: the reply carries a byte that was never added |
| Deviations.TakingAServiceAwayFails | src/oddjob_dbus.c:1113-1126 | of two services with one method each, removing the first one's ends undefined and the last one's exits |
| Deviations.BufferSizeShows | src/util.c:197-206 | a carriage return between two letters gives different lines for two buffer sizes |
| Deviations.BufferSizeShowsBehindNul | src/util.c:188-206 | so does a NUL between two letters |
| Deviations.NoClosingNull | src/util.c:208-214 | two lines without final line end leave a vector whose last slot is not NULL |
| Deviations.EscapedSpaceIsRefused | src/util.c:298-307 | an escaped space between two letters makes the line be refused, where it is meant to be one word |
| Deviations.OldDirectoryGone | src/selinux.c:181-187 | a directory that was there is gone after the whole operation was refused its owner |
| Deviations.CallersContextIsLost | src/selinux.c:174-176 | a caller that had a creation context set has none after a return of 0, under an honest kernel |
| Deviations.FilesPassForDirectories | src/selinux.c:149-177 | a leading block device is taken for a directory, and a regular file at the path makes the call return 0 |
| Deviations.ClearedBufferStillSends | src/buffer.c:131-135 | a new buffer that "a" was appended to is empty when cleared and would still send the "a" |
| Deviations.StrayCallFollowsNull | src/oddjob_dbus.c:657-666 | with no services, a call follows a NULL pointer instead of being left alone |
| Deviations.SenderlessCallGetsUnwrittenText | src/oddjob_dbus.c:725-734 | a call without sender is answered with the unwritten text |
| Deviations.OtherKindIsTakenForACall | src/oddjob_dbus.c:707-718 | a message of any kind that names no interface is handled |
| Deviations.DisabledHeadNeverSleeps | src/mainloop.c:365-369 | with a disabled head and seven seconds left of the next timeout the fold yields 0 |

## Left out

- libdbus, SELinux, `fnmatch`, the user database, `select`, `waitpid`, `stat`: foreign code, present only through its answers.
- D-Bus before 0.30, and the wire format and UTF-8 checks of strings: a message is a sequence of typed values.
- `service_connect`'s retry loop and the reconnect policy: whether connecting works is an answer from outside.
- The SELinux context carried by a message: fetched from the bus and handed on untouched.
- `malloc` failing, freeing and leaks: allocation works; only use after freeing is modelled, where the code does it.
- Wrap-around of `size_t` sums and of 32-bit milliseconds: the quantities stay far below; only the `(size_t) -1` of the service removal wraps and is modelled.
- The timeout-firing block that its author marks as probably wrong (`src/mainloop.c:468-483`), signal handlers and `mainloop_iterate`.
- `src/gpupdate.c`, `src/pam_oddjob_gpupdate.c`, scripts and configuration: glue with easy branches.
- `retry_write`, `oddjob_strndup`, `oddjob_freev`, duplicating and freeing messages, the other reply senders: easy members.
- Registry.Context.RemoveMethod: says nothing of the state after `Exited` or `Undefined`, because the process is gone or C gives it no meaning.
- EventLoop.Handle: callbacks push onto the list being served and do not unlink entries themselves, as the code relies on; a watch callback that adds a child is not modelled.
- Dispatch.Filter: a handler that changes the registry while it is being called is not modelled.
- MakePath.Mkdir: paths are strings to the file system; symbolic links and `..` are the kernel's business.
- `is_selinux_enabled` is asked once and remembered: whether SELinux is in use is fixed for a call.
