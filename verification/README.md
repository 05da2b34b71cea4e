# mtp-rs: a verified model

Dafny models of the logic that sits between the USB calls and the public API of mtp-rs, a Rust
MTP/PTP stack, with proofs of what that logic is for. `dafny verify dfyconfig.toml` checks all of it.

What the outside world does is a parameter: a device is a function from the n-th request to its
reply, a wait carries the time it took, a cancel token is a function of the step. Nothing is
assumed of these beyond what a theorem says it assumes, so each result covers every device and
every run.

- **Downloads** (`Download`, `Pacing`, `PartialRead`). `FileDownload` is the source's state
  machine, in one held-open transfer or in windows sized by the measured speed. Its invariant has
  three parts, each kept by every step for every device: `HandedOut`, what the consumer holds is
  inside the range, the object's own, and no fewer bytes than chunks; `InFlight`, what the read in
  flight asked for and how far it can be trusted; `Smooth`, no error against a device that answers
  its reads. Every run ends by a measure of bytes, reads and items left.
- **Folder listings** (`PropList`, `PropListSession`, `Listing`, `FolderSnapshot`,
  `FolderListing`, `Objects`). The fold over `GetObjectPropList` elements is proved equal to a
  declarative verdict, the session flags are exact, and on a consistent folder the fast listing
  refines the slow one. The root listing is exact if and only if a stated condition holds.
- **Dates** (`Calendar`, `DateTimes`, `DateText`). The closed forms are compared with a calendar
  that only counts days to the ends of months, the parser with a grammar.
- **Wire format** (`Pack`, `Container`) and **bulk output** (`BulkOut`). Round trips on every
  input, reassembly of every cut, and a receiver that reads packets until a short one.
- **Sets and trees** (`Hotplug`, `Walk`, `GetPlan`, `LocalNames`). Runs of enumerations replayed from nothing,
  the recursive walk, the download plan, its collision check, and local names against what a file
  system makes of a path.

Places where the code does less than a reader may expect; the code is followed, with an input that
shows it and the condition under which it does meet the expectation:

- A held-open read that overruns is not detected: only windows are compared with what was asked.
  `Download.OverrunExample` returns two bytes of a one-byte object. For every object, range and
  pacing, every device true within its requests gives the exact range or an error if and only if
  `TellsOverruns` holds, that is unless the settled pacing is held open and its first command can be
  sent: `Download.Fetch` is one direction and `Download.FetchOverrun` the other.
- A string of 255 units without a terminator can be read from the wire but not packed again
  (`Pack.UnterminatedExample`); `Pack.DecodedStringsAreStable` says that this is the only such shape.
- A text with a NUL packs, and reads back cut at the NUL: `Pack.StringRoundTrip` is an
  if-and-only-if on NUL-freedom.
- The root lists short when the storage ID is both a listed handle and the way a root object names
  its parent (`Listing.ClashExample`); `Listing.RootFilterIsExact` is an if-and-only-if on that.
- When the handles came by parent 0, the root lists short as soon as some root object spells its
  parent otherwise (`Listing.ZeroFilterExample`); `Listing.ZeroFilterIsExact` is an
  if-and-only-if on that.

## Model

| member | source | states |
|---|---|---|
| `Download.Fetch` | crates/mtp-rs/src/mtp/stream.rs:211-503 | for every pacing, range, device speed and way of cutting or shortening reads a download ends; data without an error is exactly bytes [start, end) of the object, for overrunning reads too wherever `TellsOverruns` holds; a download that is not held open sends only windows, inside the range and at readable offsets, from its first command to its last; a device that answers its reads causes no error; a held-open body that brings the range or more comes out as it is |
| `Download.FetchOverrun` | crates/mtp-rs/src/mtp/stream.rs:344-366 | the converse of the exactness: for every object, range and pacing where `TellsOverruns` fails, a device true to the object within its requests has any excess it sends come out as data without an error |
| `Download.OverrunExample` | crates/mtp-rs/src/mtp/stream.rs:344-366 | the object is one byte, the device sends two to `GetObject`, and both come out |
| `Download.FetchInTwoParts` | crates/mtp-rs/src/mtp/stream.rs:272-333 | stopping by `cancel` after any number of chunks and resuming from `offset()`, for any range and any two pacings, yields the whole range, and does so without an error when the device answers its reads |
| `Download.ResumedIsTrusted` | crates/mtp-rs/src/mtp/stream.rs:243-256 | what is left of a range from an offset in it ends where the range does, and its overruns are told wherever those of the range are |
| `Download.FetchSome` | crates/mtp-rs/src/mtp/stream.rs:264-333 | a download of any range, cancelled after any number of chunks, has handed out exactly the bytes from its start to `offset()` |
| `Download.FileDownload.NextChunk` | crates/mtp-rs/src/mtp/stream.rs:336-392 | keeps the download invariants; at most one command is sent; in windowed mode it is a window at the old `offset`, of the size the pacer then picks, inside the range and at a readable offset; of every window that ended the pacer has learnt the bytes of its body and the time of all its waits, from opening to closing; a chunk brings the run closer to its end and no full window still holds the session; the next chunk of a held-open read is handed on as it is; after an error or `None` nothing more comes and nothing is sent |
| `Download.FileDownload.TakeChunk` | crates/mtp-rs/src/mtp/stream.rs:344-366 | a chunk is handed on and accounted for once; a window that overruns or does not close is an error with nothing handed on; of a closed window the pacer learns the bytes of the body the device answered with, and the sum of its opening, its items' waits and its closing |
| `Download.FileDownload.KeepReading` | crates/mtp-rs/src/mtp/stream.rs:344-366 | a chunk inside a read extends the delivered bytes and leaves the rest of the read in flight |
| `Download.FileDownload.FinishWindow` | crates/mtp-rs/src/mtp/stream.rs:358-365 | a window's last chunk is handed on only once the device has closed the window, the session is free by then, and the pacer has learnt the body's bytes and whole time |
| `Download.FileDownload.CloseFullWindow` | crates/mtp-rs/src/mtp/stream.rs:395-414 | a full window closes exactly when its next item is the end; extra data is invalid data, an error is passed on |
| `Download.FileDownload.CloseRead` | crates/mtp-rs/src/mtp/stream.rs:370-381 | a read that ended is given up; of a window the pacer learns the body's bytes and whole time, of a held-open transfer nothing |
| `Download.FileDownload.TimeAdvances` | crates/mtp-rs/src/mtp/stream.rs:341-344 | a chunk's own wait moves from the waits to come to the time counted, so that the two always add up to the body's |
| `Download.WaitsAdd` | crates/mtp-rs/src/mtp/stream.rs:341-344 | the waits of a body are its items' own, added up |
| `Download.FileDownload.StartNextRead` | crates/mtp-rs/src/mtp/stream.rs:417-459 | one command at most; a download that is not held open only ever opens windows, of the pacer's size, or is refused unsent; a held-open one takes up exactly what the device answers; a refusal leaves no read |
| `Download.FileDownload.OpenWindow` | crates/mtp-rs/src/mtp/stream.rs:424-436 | a window starts at `offset`, has the pacer's size, is at least one byte and stays in the range |
| `Download.FileDownload.OpenHeldOpen` | crates/mtp-rs/src/mtp/stream.rs:437-455 | a held-open read starts at `offset`, asks for no more than the rest of the range, and takes up what the device answers |
| `Download.FileDownload.Fail` | crates/mtp-rs/src/mtp/stream.rs:462-466 | an error ends the download, drops the read and keeps what was handed out; it can only be reached against a device that does not answer its reads |
| `Download.FileDownload.Cancel` | crates/mtp-rs/src/mtp/stream.rs:327-333 | the download is over, nothing is held, and only a read in flight has to be given back |
| `Download.FileDownload.Collect` | crates/mtp-rs/src/mtp/stream.rs:496-503 | the remaining bytes, exactly; it ends, and when reads are bounded and chunks hold something, within end - offset chunks; windowed, every command sent is a window inside the range |
| `Download.FileDownload.TakeChunks` | crates/mtp-rs/src/mtp/stream.rs:336-392 | any number of chunks, end to end, are what was delivered; when reads are bounded and chunks hold something, the end comes within end - offset chunks |
| `Download.FileDownload.DeliveredIsContent` | crates/mtp-rs/src/mtp/stream.rs:264-277 | without an error, `offset()` is in the range and the bytes handed out are the object's from start to there |
| `Download.FileDownload.ServedReadFits` | crates/mtp-rs/src/mtp/backend/mod.rs:97-101 | a read from a device that answers and keeps to its requests never overruns, and a full window has no item left |
| `Download.FileDownload.ChunkIsHandedOut` | crates/mtp-rs/src/mtp/stream.rs:344-366 | a chunk that does not overrun its window keeps what was handed out inside the range, true to the object, and no fewer bytes than chunks |
| `Download.FileDownload.ReadAdvances` | crates/mtp-rs/src/mtp/stream.rs:344-366 | a chunk that leaves its read in flight leaves the rest of it in order |
| `Download.FileDownload.NextChunkFits` | crates/mtp-rs/src/mtp/stream.rs:344-366 | what the next chunk comes to: an overrun, the end of a window, or more of the read |
| `Download.FileDownload.UnreadableIsRefused` | crates/mtp-rs/src/mtp/stream.rs:417-459 | where windows are wanted and cannot be read, a held-open read cannot be asked for either, so nothing is ever held open |
| `Download.FileDownload.TakeItem` | crates/mtp-rs/src/mtp/stream.rs:339-367 | an item is a chunk handed on, or its own error, which ends the download; a chunk of a held-open read is always handed on |
| `Download.FileDownload.EndRead` | crates/mtp-rs/src/mtp/stream.rs:368-381 | the end of a read is a stall exactly when it brought nothing and more is wanted; otherwise the pacer learns from it |
| `Download.FileDownload.Reopen` | crates/mtp-rs/src/mtp/stream.rs:383-390 | between reads: over exactly when every byte has arrived; else the next read is in flight or the download has failed |
| `Download.FileDownload.Pull` | crates/mtp-rs/src/mtp/stream.rs:336-392 | a chunk as one step of a run: only windows since its beginning, and of a held-open body that brings the rest, exactly the next piece |
| `Download.FileDownload.BrokenIsNotServed` | crates/mtp-rs/src/mtp/stream.rs:369-378 | a failing read and a read without a byte are never blamed on a device that answers its reads |
| `Download.Start` | crates/mtp-rs/src/mtp/stream.rs:211-258 | start and end of the range (saturating, cut to the size); an offset past the size is refused before anything is sent; a whole file that partial reads cannot reach to its last byte is held open; a download that is not held open sends nothing yet; a held-open one has its first read in flight, or the refusal |
| `Download.HeldOpenCommand` | crates/mtp-rs/src/mtp/backend/usb.rs:838-886 | the command for a range starts where the range does and asks for no more than it; a whole object is told its size exactly from 4 GiB on |
| `Download.ChunkIsTrue` | crates/mtp-rs/src/mtp/backend/mod.rs:97-101 | a chunk inside the request extends the delivered prefix of the object |
| `Pacing.WindowBounds` | crates/mtp-rs/src/mtp/stream.rs:109-122 | each window is in 1..min(remaining, 2^32-1); a fixed size (0 counts as 1) and the first 8 MiB are cut only by what is left |
| `Pacing.WindowFollowsRate` | crates/mtp-rs/src/mtp/stream.rs:109-122 | an adaptive window is at least 1 MiB or what is left, within the target time at the measured rate, and within 1 MiB of it unless capped |
| `Pacing.RecordSmooths` | crates/mtp-rs/src/mtp/stream.rs:125-133 | the first window sets the rate, each later one moves it exactly halfway; a window that says nothing changes nothing |
| `PartialRead.WireOffsetIsExact` | crates/mtp-rs/src/mtp/backend/usb.rs:55-217 | a partial read is planned exactly when an operation reaches the offset, the 64-bit one wherever there is one, and its wire parameters give back the exact 64-bit offset and length; else the error says whether there is any |
| `PartialRead.EarlierOffsetsReadable` | crates/mtp-rs/src/mtp/backend/usb.rs:55-74 | an offset that can be read makes every earlier one readable |
| `PropList.ChildrenFromPropList` | crates/mtp-rs/src/mtp/backend/usb.rs:474-553 | the verdict is the declarative one: systemic iff a child names another parent or a required property is lacked by all that need it, else incomplete iff some child lacks one, else the children in first-seen order |
| `PropList.FoldElements` | crates/mtp-rs/src/mtp/backend/usb.rs:486-509 | the vector and its hash index hold, per handle in first-seen order, what the handle's own elements make |
| `PropList.Count` | crates/mtp-rs/src/mtp/backend/usb.rs:517-541 | the two counters decide "some lack it" and "all that need it lack it" |
| `PropList.ChildKeepsHandle` | crates/mtp-rs/src/mtp/backend/usb.rs:486-509 | a required property is marked exactly when some element gave the handle a usable value of it |
| `PropList.AnswerIsComplete` | crates/mtp-rs/src/mtp/backend/usb.rs:474-553 | an Ok verdict drops no handle but the folder's own, repeats none, keeps first-seen order, and every child has the asked parent and every property it needs; each field is what the last of the child's own elements to give it says, and the storage is the one listed where no element says otherwise |
| `PropList.ChildHoldsLast` | crates/mtp-rs/src/mtp/backend/usb.rs:486-509 | each field of a child is what the last of its elements to give it says, and unset where none does |
| `PropList.FirstSeenIsInOrder` | crates/mtp-rs/src/mtp/backend/usb.rs:466-467 | before any element of a later child there is one of an earlier child |
| `PropList.InterleavingIsIrrelevant` | crates/mtp-rs/src/mtp/backend/usb.rs:467-553 | verdict and objects are the same under any interleaving that keeps each handle's own element order |
| `FolderSnapshot.ServedFolderIsListed` | crates/mtp-rs/src/mtp/backend/usb.rs:300-336 | on a folder whose required properties are truly served, the answer is usable and lists every object once, alike |
| `FolderSnapshot.PerHandleListing` | crates/mtp-rs/src/mtp/backend/usb.rs:778-824 | reading handle by handle gives the objects themselves, in handle order |
| `FolderSnapshot.PropListRefinesPerHandle` | crates/mtp-rs/src/mtp/backend/usb.rs:300-336 | on one consistent folder both listings succeed and agree on every handle, storage, parent, name, format and file size, with as many objects |
| `PropListSession.Session.AddOptional` | crates/mtp-rs/src/mtp/backend/usb.rs:343-386 | by the device's own reply: a declined date is not asked; garbage, a stall, one of the six capability codes or a dataset that serves no child is remembered; any other response code is not; a session failure is reported; of each child only that date changes, to what its last element says |
| `PropListSession.Session.AddOptionalProperties` | crates/mtp-rs/src/mtp/backend/usb.rs:343-386 | exactly the dates not declined before are asked, in order, as far as no error comes |
| `PropListSession.Session.AskAllRequired` | crates/mtp-rs/src/mtp/backend/usb.rs:310-321 | the four required properties are asked in order until one is not answered with elements; the session is switched off exactly on a decline or garbage |
| `PropListSession.RequiredByReplies` | crates/mtp-rs/src/mtp/backend/usb.rs:393-420 | by the device's own replies: at the first that is no dataset, garbage, a stall or one of the six capability codes switch off, any other response code falls back, and any other failure is reported; four datasets give all their elements in order |
| `PropListSession.Session.ListByPropList` | crates/mtp-rs/src/mtp/backend/usb.rs:300-336 | once switched off nothing is sent and the per-handle path is taken; no property declined before is asked; by the device's own replies, only garbage, a stall, one of the six capability codes or a systemic answer switch the session off, and any other response code, an incomplete or an empty answer change no flag; the requests sent are a prefix of the four required properties and the dates not declined; a `Some` answer is non-empty, repeats and drops no handle and gives every child the asked parent, the listed storage unless told otherwise, and all it needs |
| `PropListSession.ListMany` | crates/mtp-rs/src/mtp/backend/usb.rs:300-420 | over any sequence of listings, each with its own cancel token: from every moment to every later one the flags only grow, no property declined by then is asked again, and nothing is asked once switched off |
| `PropListSession.SetOptional` | crates/mtp-rs/src/mtp/backend/usb.rs:349-373 | every child gets the values its elements give, and "served" is true exactly when some child took one |
| `PropListSession.PropertyIsAdded` | crates/mtp-rs/src/mtp/backend/usb.rs:362-372 | adding a property leaves every other field, and sets its own to what the last element to give it says |
| `PropListSession.ListingIsComplete` | crates/mtp-rs/src/mtp/backend/usb.rs:474-553 | after the dates are added the listing still drops no handle, repeats none, and every child has its parent, storage and required properties, as its last elements say |
| `FolderListing.ListFolder` | crates/mtp-rs/src/mtp/backend/usb.rs:739-829 | whichever path is taken and whatever the session learnt before, the listing is the folder, every object once, provided the property answers used are true of it; it fails exactly when the property path fails |
| `FolderListing.ListRoot` | crates/mtp-rs/src/mtp/backend/usb.rs:739-829 | the root listing skips nothing and yields exactly the root objects, in handle order, iff the storage ID does not clash (or, asked by parent 0, iff all roots spell it 0); a session failure is reported at once |
| `FolderListing.ServedListsFolder` | crates/mtp-rs/src/mtp/backend/usb.rs:300-336 | a served answer with dates added is the folder, every object once |
| `FolderListing.PerHandleListsFolder` | crates/mtp-rs/src/mtp/backend/usb.rs:778-824 | the per-handle listing is the folder, every object once |
| `Listing.RootListingIsExact` | crates/mtp-rs/src/mtp/backend/usb.rs:224-276 | for each of the three ways a device may give its root handles, the handles and the filter chosen keep exactly the root objects iff the stated condition holds |
| `Listing.RootListingFails` | crates/mtp-rs/src/mtp/backend/usb.rs:224-276 | a failure that is not the device's no is reported at once, a cancel between requests stops, and a no to parent 0 stands unless it is an invalid handle |
| `Listing.FolderIsAskedOnce` | crates/mtp-rs/src/mtp/backend/usb.rs:251-274 | a folder is asked for once, by its own handle, whatever comes back stands, and only its own children are kept |
| `Listing.RootFilterIsExact` | crates/mtp-rs/src/mtp/backend/usb.rs:641-681 | the root filter keeps exactly the roots, except iff the storage ID is both a listed handle and a root spelling |
| `Listing.ZeroFilterIsExact` | crates/mtp-rs/src/mtp/backend/usb.rs:253-259 | filtering for parent 0 is exact iff every root object spells its parent 0 |
| `Listing.ClashExample` | crates/mtp-rs/src/mtp/backend/usb.rs:641-660 | any storage ID that is itself the handle of a root object naming it as parent: that object is not listed |
| `Listing.ZeroFilterExample` | crates/mtp-rs/src/mtp/backend/usb.rs:253-259 | a root object that spells its parent 0xFFFFFFFF is not listed when the handles came by parent 0 |
| `Listing.FilterDecides` | crates/mtp-rs/src/mtp/backend/usb.rs:671-681 | a filter that accepts no non-root yields the roots iff it accepts them all |
| `Listing.ObjectStream.Next` | crates/mtp-rs/src/mtp/backend/usb.rs:778-824 | passes over objects of other parents only; yields the next readable object, or an error classified as skippable or fatal; a cancel is fatal |
| `Listing.CollectIn` | crates/mtp-rs/src/mtp/storage.rs:303-349 | the collection is exactly what the outcomes come to: the first fatal error, or a failure when nothing but skips came back, or the objects and skips in order |
| `Listing.CollectionIsExact` | crates/mtp-rs/src/mtp/storage.rs:303-349 | by the device's own replies: Ok exactly when nothing is cancelled, no read fails but with a general error on its metadata, and such an object has a readable one beside it; then exactly the objects found, under their handles, and those skips |
| `Listing.CollectionPartitions` | crates/mtp-rs/src/mtp/storage.rs:303-349 | readable, skipped and filtered handles partition the enumerated ones, each in their order; never skips without an object |
| `Listing.ListedIsCollected` | crates/mtp-rs/src/mtp/storage.rs:309-349 | where every read succeeds, the collection is what the filter keeps, with nothing skipped |
| `Objects.SetPropertyWritesOneField` | crates/mtp-rs/src/ptp/types/objects.rs:263-304 | a value that fits sets its own field and no other; one that does not changes nothing |
| `Objects.FitsIsTyped` | crates/mtp-rs/src/ptp/types/objects.rs:265-271 | a value is taken exactly when some object could have what it says in that field: type and width decide |
| `Objects.FoldersAre` | crates/mtp-rs/src/ptp/types/objects.rs:306-313 | the association format or the association type of a folder makes one, and nothing else |
| `Walk.CollectObjectsRecursive` | crates/mtp-rs/src/mtp/storage.rs:418-437 | on any finite tree it ends; it fails iff a reached folder fails to list; otherwise it returns every object of every reached folder, as often as listed, and every skip |
| `Walk.PushFolders` | crates/mtp-rs/src/mtp/storage.rs:426-434 | a folder's objects are all added and its subfolders pushed in order |
| `Walk.PopReaches` | crates/mtp-rs/src/mtp/storage.rs:426-434 | popping a folder and pushing its subfolders leaves exactly that folder out of what is still reached |
| `Walk.FoldersReach` | crates/mtp-rs/src/mtp/storage.rs:426-434 | the pushed subfolders reach exactly what lies below the children |
| `GetPlan.WalkFolder` | crates/mtp-rs-cli/src/cli/commands/get.rs:272-334 | on any finite tree it ends; it succeeds iff every reached folder lists and every name is usable, and its error is some such folder's or name's; the plan holds every object and skip of the tree under its own remote and local path, no more and no less, with folders parents first; each joined local path, cut at NUL, split at separators and resolved, leads to itself below the destination; each remote path is the local one below the remote root |
| `GetPlan.PlanStaysInside` | crates/mtp-rs-cli/src/cli/commands/get.rs:299-311 | no planned path leaves the destination, whether only `/` separates or `\` too |
| `GetPlan.RemoteGoesOn` | crates/mtp-rs-cli/src/cli/commands/get.rs:309-313 | remote paths are the names below the root, one after the other, also when the root is `/` |
| `LocalNames.CheckIsExact` | crates/mtp-rs-cli/src/cli/commands/get.rs:480-518 | a name is accepted iff, as a path, it leads to itself, and on Windows iff it also has no control or reserved character, no dot or space at its end, and names no device in any case or with any extension |
| `LocalNames.ComponentLeadsToItself` | crates/mtp-rs-cli/src/cli/commands/get.rs:481-493 | non-empty, not `.` or `..`, free of `/`, `\` and NUL: exactly the names that resolve to one component, themselves |
| `LocalNames.JoinedLeadsThere` | crates/mtp-rs-cli/src/cli/commands/get.rs:311 | accepted names joined lead, resolved, exactly there |
| `LocalNames.ReservedNamesDevice` | crates/mtp-rs-cli/src/cli/commands/get.rs:506-516 | the reserved names are CON, PRN, AUX, NUL, and COM or LPT with a digit, plain or superscript |
| `GetPlan.VisitFolder` | crates/mtp-rs-cli/src/cli/commands/get.rs:285-331 | one folder is planned iff it lists and its names are usable; planned and still-to-plan rows are conserved |
| `GetPlan.PlanObjects` | crates/mtp-rs-cli/src/cli/commands/get.rs:299-329 | one folder's objects are planned iff all names are usable, each inside a planned folder; else the error names one that is not |
| `GetPlan.FindCollision` | crates/mtp-rs-cli/src/cli/commands/get.rs:521-541 | reports none iff all keys differ; otherwise the remote paths of the first entry that repeats a key and the earlier one with it |
| `GetPlan.PlanIsClosed` | crates/mtp-rs-cli/src/cli/commands/get.rs:272-334 | every entry of a plan lies in the destination or in a planned folder |
| `GetPlan.DistinctKeysFoldApart` | crates/mtp-rs-cli/src/cli/commands/get.rs:521-541 | if no two keys agree then no two entries share a path even with every component folded, although parents are compared as they are |
| `GetPlan.CollisionCheckIsExact` | crates/mtp-rs-cli/src/cli/commands/get.rs:521-541 | on a plan, the key check passes iff no two fully folded paths agree |
| `GetPlan.CheckNoCollisions` | crates/mtp-rs-cli/src/cli/commands/get.rs:347-363 | a plan is refused iff two entries land on one local path as the destination compares names |
| `Calendar.CivilRoundTrip` | crates/mtp-rs/src/ptp/pack/datetime.rs:112-136 | every valid date survives the trip through its day count |
| `Calendar.DaysRoundTrip` | crates/mtp-rs/src/ptp/pack/datetime.rs:112-136 | every integer day count is the count of the date it converts to, and that date exists |
| `Calendar.NextDayCountsOne` | crates/mtp-rs/src/ptp/pack/datetime.rs:97-122 | the day count rises by exactly one from each date to its calendar successor, as month lengths and leap years define it |
| `Calendar.CivilFromDaysSteps` | crates/mtp-rs/src/ptp/pack/datetime.rs:125-136 | one more day is the next date of the calendar |
| `Calendar.DaysCountTheCalendar` | crates/mtp-rs/src/ptp/pack/datetime.rs:112-122 | 1970-01-01 is day 0 and n calendar days count n |
| `Calendar.YearOfEraInverts` | crates/mtp-rs/src/ptp/pack/datetime.rs:129 | the corrected division recovers the year of an era from any of its days |
| `Calendar.YearBounds` | crates/mtp-rs/src/ptp/pack/datetime.rs:90-93 | a day count is in years 0-9999 iff between the first day of year 0 and that of year 10000 |
| `DateTimes.BoundsAreYears` | crates/mtp-rs/src/ptp/pack/datetime.rs:90-93 | the two constants are the first and last seconds of years 0-9999 |
| `DateTimes.FromUnixFields` | crates/mtp-rs/src/ptp/pack/datetime.rs:272-290 | no cast loses anything: the fields are the local date and time |
| `DateTimes.FromUnixIsExact` | crates/mtp-rs/src/ptp/pack/datetime.rs:272-290 | a value comes back iff the local year is in 0-9999; it is valid and converts back to the same seconds, at every offset |
| `DateTimes.ToUnixIsExact` | crates/mtp-rs/src/ptp/pack/datetime.rs:294-314 | every valid offset-carrying date comes back unchanged from its seconds, which fit 64 bits |
| `DateTimes.LocalSeconds` | crates/mtp-rs/src/ptp/pack/datetime.rs:302-314 | a valid date's seconds are its wall clock less its offset |
| `DateTimes.FallbackReadsAsOffset` | crates/mtp-rs/src/ptp/pack/datetime.rs:299-314 | a fallback offset reads a zoneless date as if it carried that offset, and never overrides one it carries |
| `DateTimes.OnlyValidHasSeconds` | crates/mtp-rs/src/ptp/pack/datetime.rs:294-305 | seconds come of exactly the valid dates, and without a fallback of exactly the offset-carrying ones |
| `DateText.ParseIsTheGrammar` | crates/mtp-rs/src/ptp/pack/datetime.rs:139-267 | a text parses to a date iff the grammar spells that valid date: fifteen fixed bytes, an optional fraction, an optional offset |
| `DateText.FormatThenParse` | crates/mtp-rs/src/ptp/pack/datetime.rs:339-357 | every valid date, with or without offset, is formatted as text that parses to it |
| `DateText.StampExample` | crates/mtp-rs/src/ptp/pack/datetime.rs:339-348 | one date spelled out byte by byte: year, month, day, `T`, hour, minute, second |
| `DateText.ZoneExamples` | crates/mtp-rs/src/ptp/pack/datetime.rs:152-175 | offsets east, west and zero, and a fraction, spelled out byte by byte |
| `DateText.ParseThenFormat` | crates/mtp-rs/src/ptp/pack/datetime.rs:251-267 | whatever parses is a valid date whose own text parses to the same date |
| `DateText.ZoneParses` | crates/mtp-rs/src/ptp/pack/datetime.rs:162-174 | an offset text parses to an offset iff it is `Z`, `+hhmm` or `-hhmm` for it within 23:59, or nothing |
| `DateText.SuffixJoins` | crates/mtp-rs/src/ptp/pack/datetime.rs:152-175 | a fraction and an offset text, joined, parse to that offset |
| `DateText.SuffixSplits` | crates/mtp-rs/src/ptp/pack/datetime.rs:152-175 | any suffix that parses is a fraction and an offset text |
| `DateText.DigitsOfPad` | crates/mtp-rs/src/ptp/pack/datetime.rs:139-148 | zero-padded digits read back as the number |
| `DateText.PadOfDigits` | crates/mtp-rs/src/ptp/pack/datetime.rs:139-148 | digits are the zero-padded form of the number they read as |
| `DateText.PackedDateRoundTrip` | crates/mtp-rs/src/ptp/pack/datetime.rs:363-388 | a date packs iff valid, and unpacks to itself consuming exactly what was packed, whatever follows |
| `DateText.UnpackedDateIsStable` | crates/mtp-rs/src/ptp/pack/datetime.rs:385-388 | reading a date fails only where reading its string does; a date read packs and unpacks to itself |
| `Pack.U16RoundTrip` | crates/mtp-rs/src/ptp/pack/mod.rs:19-80 | little-endian, and read back from the front of any buffer |
| `Pack.U32RoundTrip` | crates/mtp-rs/src/ptp/pack/mod.rs:25-92 | little-endian, and read back from the front of any buffer |
| `Pack.DecodeInvertsEncode` | crates/mtp-rs/src/ptp/pack/mod.rs:175-252 | decoding the UTF-16 of any text gives the text |
| `Pack.DecodeKeepsUnits` | crates/mtp-rs/src/ptp/pack/mod.rs:248-251 | lossy decoding keeps the number of UTF-16 units and makes no NUL |
| `Pack.SurrogatesDecode` | crates/mtp-rs/src/ptp/pack/mod.rs:248-251 | a lone surrogate becomes U+FFFD, a pair one scalar |
| `Pack.PackString` | crates/mtp-rs/src/ptp/pack/mod.rs:175-204 | the loop builds the wire form: length byte, units, terminator; a text over 254 units is refused with its length |
| `Pack.UnpackString` | crates/mtp-rs/src/ptp/pack/mod.rs:209-252 | the loop with its early break reads the units before the first NUL and consumes what the length byte says |
| `Pack.StringRoundTrip` | crates/mtp-rs/src/ptp/pack/mod.rs:153-252 | for every text of at most 254 units, unpack after pack gives the text before its first NUL, so the text itself iff NUL-free, and consumes exactly what was packed |
| `Pack.PackedIsWire` | crates/mtp-rs/src/ptp/pack/mod.rs:153-204 | no text is a single 0; any other is a count, its units and a NUL; one over 254 units is refused with its length |
| `Pack.DecodedStringsAreStable` | crates/mtp-rs/src/ptp/pack/mod.rs:205-252 | any decoded string is NUL-free, has as many units as were read before the first NUL, packs unless it is 255 units without a terminator, and then unpacks to itself |
| `Pack.UnterminatedExample` | crates/mtp-rs/src/ptp/pack/mod.rs:175-252 | any 255 equal units without a NUL unpack, and are refused as too long when packed |
| `Container.HeaderParses` | crates/mtp-rs/src/ptp/container.rs:58-71 | a header reads back its type, length, code and transaction |
| `Container.DataRoundTrip` | crates/mtp-rs/src/ptp/container.rs:120-184 | below 4 GiB a data container parses back, whatever follows it |
| `Container.ParseResponse` | crates/mtp-rs/src/ptp/container.rs:201-260 | the parameters are the consecutive little-endian words of the body; a ragged body is refused |
| `Container.HeaderIsRead` | crates/mtp-rs/src/ptp/container.rs:138-175 | a header is accepted iff the buffer has 12 bytes, the type and a length from 12 to its own, and its fields are the little-endian words in their places |
| `Container.ResponseRoundTrip` | crates/mtp-rs/src/ptp/container.rs:201-260 | the parameters of any response read back, whatever follows it |
| `Container.RaggedIsRefused` | crates/mtp-rs/src/ptp/container.rs:241-247 | a response body is accepted iff it is whole words |
| `Container.ResponseDecides` | crates/mtp-rs/src/ptp/device.rs:164-173 | an Ok response ends the reading with what came, any other with its code |
| `Container.OtherIsRefused` | crates/mtp-rs/src/ptp/device.rs:140-180 | a failed transfer, a short one, and any container but data and response end the reading with an error |
| `Container.ShortContainerIsRefused` | crates/mtp-rs/src/ptp/device.rs:149-160 | a data container that stops short, by an empty or a failed transfer, is never taken |
| `Container.ReceiveDataset` | crates/mtp-rs/src/ptp/device.rs:139-182 | the nested receive loops return the payloads before the response, or the first error |
| `Container.CutContainerReceived` | crates/mtp-rs/src/ptp/device.rs:146-162 | one container below 4 GiB, however cut into non-empty transfers with its header whole, adds exactly its payload |
| `Container.CutContainersReceived` | crates/mtp-rs/src/ptp/device.rs:140-182 | consecutive containers, however each is cut, concatenate in order once an Ok response follows |
| `BulkOut.SendBulkStreaming` | crates/mtp-rs/src/transport/nusb.rs:725-796 | for every chunking of the input and positive packet size: on success exactly the specified buffers are submitted; on failure a prefix of them; it succeeds iff neither the stream nor a transfer fails |
| `BulkOut.CopyChunk` | crates/mtp-rs/src/transport/nusb.rs:739-760 | copying a chunk keeps submitted, buffered and remaining bytes equal to the data, and submits only full buffers |
| `BulkOut.SubmitRemainder` | crates/mtp-rs/src/transport/nusb.rs:762-795 | the partial buffer and the zero-length packet complete the submissions |
| `BulkOut.SubmissionsShape` | crates/mtp-rs/src/transport/nusb.rs:725-796 | the buffers concatenate to the input, all before the last partial one are exactly the transfer size, and a zero-length packet is there iff the total is non-zero and divisible by the packet size |
| `BulkOut.ReceiverGetsData` | crates/mtp-rs/src/transport/nusb.rs:725-796 | a device that reads packets until a short one gets exactly the data and none of the next transfer; an empty send puts nothing on the wire |
| `BulkOut.TransferIsWholePackets` | crates/mtp-rs/src/transport/nusb.rs:729-732 | the transfer size is the least whole number of packets that holds 256 KiB |
| `Hotplug.Diff` | crates/mtp-rs/src/mtp/hotplug.rs:68-94 | every listed device is in the new known set under its key, and each key there holds the last device listed of that key; departures, each as last seen and once, come before arrivals, each once |
| `Hotplug.KeyIsIdentity` | crates/mtp-rs/src/mtp/hotplug.rs:47-64 | two devices have one key iff port, vendor, product and serial agree |
| `Hotplug.EventsFor` | crates/mtp-rs/src/mtp/hotplug.rs:79-90 | the entries missing from the other map are named once each, in any order |
| `Hotplug.ReplayRound` | crates/mtp-rs/src/mtp/hotplug.rs:68-94 | one round takes the replayed set from the keys known before to those known after |
| `Hotplug.RunReplays` | crates/mtp-rs/src/mtp/hotplug.rs:246-262 | replaying all events of any run from nothing gives exactly the keys of the devices in the last listing |
| `Hotplug.ReplayAlternates` | crates/mtp-rs/src/mtp/hotplug.rs:268-307 | events that replay alternate Arrived, Left for every key, starting with Arrived |
| `Hotplug.RunAlternates` | crates/mtp-rs/src/mtp/hotplug.rs:246-307 | in every run each key's events alternate, and it is known at the end iff their number is odd |
| `Hotplug.RunGrows` | crates/mtp-rs/src/mtp/hotplug.rs:246-262 | a successful enumeration adds one round to a run |
| `Hotplug.DeviceWatch.WatchIsTrue` | crates/mtp-rs/src/mtp/hotplug.rs:246-307 | at every moment, replaying handed-out and pending events gives exactly the keys of the devices last listed, which are the known ones, and handed-out events alternate for every key, from Arrived on |
| `Hotplug.DeviceWatch.constructor` | crates/mtp-rs/src/mtp/hotplug.rs:154-170 | a new watch knows nothing and has reported nothing |
| `Hotplug.DeviceWatch.Enumerate` | crates/mtp-rs/src/mtp/hotplug.rs:246-262 | a failed enumeration changes nothing; a successful one adds its round |
| `Hotplug.DeviceWatch.TakePending` | crates/mtp-rs/src/mtp/hotplug.rs:272-274 | the oldest pending event is handed out and moves from pending to handed-out |
| `Hotplug.DeviceWatch.Turn` | crates/mtp-rs/src/mtp/hotplug.rs:276-306 | with nothing pending, one turn enumerates iff it is the first poll or a settle delay has just ended, starts a settle delay on an announcement, and otherwise returns |
| `Hotplug.DeviceWatch.PollNext` | crates/mtp-rs/src/mtp/hotplug.rs:268-307 | handed-out and pending events are always those of a run that ends at the known set; events come out in order; the bus is enumerated at the first poll and once after each announcement has settled, and not otherwise |

## Left out

- Download.FileDownload.NextChunk: `offset` is unbounded here; the source's 64-bit sum could only wrap on a held-open read whose excess carries it past 2^64.
- Pacing.WindowFollowsRate: rates are reals, so `f64` rounding is not modelled; a positive rate is asked for, which `Pacing.RecordSmooths` keeps.
- Download.FileDownload.Cancel: draining the interrupted transfer is the device's and the transport's part; its outcome is a parameter.
- FolderSnapshot.PropListRefinesPerHandle: folders are those whose format is Association; an object that is a folder only by its association type must still serve its size, because the property answers do not carry that type.
- Hotplug.Diff: takes and returns the known set as a value instead of replacing it in place; the watch assigns it.
- The loops of `next_chunk`, `poll_next`, `send_bulk_streaming`, `walk_folder` and `list_by_prop_list` are split into helper methods; `TakeChunks`, `Fetch`, `FetchSome` and `FetchInTwoParts` stand for a consumer's calls.
- Async scheduling, wakers, `YieldNow` and the memory ordering of atomics: calls are sequential steps.
- Real USB transfers, claiming, matching, timeouts, halts and the Still Image Class cancel sequence.
- The PTP session and the dataset parsers: an `ObjectInfo` has the fields a listing reads, without thumbnails, image sizes and keywords.
- Command and event containers, and array, signed and 64-bit integer packing: the same shape as what is modelled, and easier.
- `align_to_packet_size`, `parse_device_status` and `is_response_container`: one expression each.
- `collect_with_progress`, `read_range`, uploads, copies, moves, renames and `verify_copy`.
- Case folding of names is a parameter of the collision check, and so is what the file system answers about case.
- Required properties are a set where the source has bits; hash-map order is arbitrary.
- The WPD backend, the rest of the command line, output rows and error texts, code tables and error mapping.
