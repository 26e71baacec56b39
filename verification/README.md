# A verified model of the service's hard parts

This project states in Dafny what the hardest code of the repository does, and proves
properties of it over every input, every buffer or every run. One module follows one source
file or one concern:

- `Bytes`, `BoxWalk`, `Fragmented`, `FragmentScanner`, `NonInterference`, `Stamp`,
  `FragmentTime`, `Layout`, `Muxed`, `MuxedStamp`, `Boxes`, `Unreadable`, `Remux`: the MP4 box
  walkers, the fragment scanner and the in-place duration stamp. `Fragmented` holds the scanner
  as functions of a buffer; the class and methods of `FragmentScanner` and `Stamp` update state
  as the source does and are proved equal to them. `NonInterference` says which bytes the
  scanner does not depend on. `Layout`, `Muxed` and `Boxes` write boxes out as the standard lays
  them out, independently of the scanner's offsets and flag tests, and prove that a scan of the
  bytes of any tree of boxes is what the boxes mean; `MuxedStamp` carries this through the
  stamp, and `Unreadable` covers boxes that cannot be read in full.
- `Queue`, `QueueOutcomes`: the sequential priority queue. Each locked section, with its
  callbacks, is one step of a state machine; the class methods are proved to be those steps, and
  `QueueOutcomes` says what becomes of an item over a run.
- `Text`, `Filename`, `Ripper`, `ZipNames`, `ZipPlan`, `Music`, `Albums`, `AlbumRuns`, `Lookup`:
  the album archive pipeline, from bounded names and the greedy plan to the table of archives,
  runs of calls on it, and the completeness test. `WrittenNames`, `AlbumRules` and `Listing` say
  the same results once more without the model's functions: the names letter by letter, the
  table's calls and the lookup row by row.
- `Html`, `Json`, `Caption`, `CaptionScan`: HTML escaping, and the captions that carry a JSON
  object, are clamped to Telegram's limit and are found again.
- `Playback`, `Throttle`, `Stall`, `Sessions`: small reactive machines with invariants over
  whole runs.

Conventions. A buffer is a sequence of bytes no longer than a Rust slice can be; 64-bit and
32-bit arithmetic is written out with its checks, saturation or wrapping. A string is a sequence
of Unicode scalar values with explicit UTF-8 and UTF-16 widths. Time is a natural number
(milliseconds in `Throttle` and `Stall`, seconds in `Sessions`, nanoseconds in `Queue`). File
sizes, clocks, random codes and tokens, counters of a transfer and the order of events are
parameters. The boxes follow ISO/IEC 14496-12.

Where the code and a wish for it part ways, the code is kept and the exact condition proved:

- `Layout.RunsReadExactly`: a run laid out by section 8.8.8 of ISO/IEC 14496-12 is read as
  lasting what its samples last, for every run of its version, flags and sample count, exactly
  when the version is not 1, flag 0x800 or flag 0x100 is clear, or there is at most one sample;
  `Layout.VersionOneMisread` is a run that is misread.
- `AlbumRuns.DeletionExactly`: a deletion reads and deletes in two transactions. When no message
  id is committed twice it reports exactly what it deletes if and only if no call in between
  takes an id that was read, and every id given to the selected rows in between is also taken
  in between; `AlbumRuns.StaleDeleteLosesAnId` is a run in which it does not. An upsert loses an
  id exactly when it overwrites another message id (`AlbumRuns.UpsertLosesAnId`). For whole
  runs `AlbumRuns.RunConserves` puts the conditions together for any ids, and
  `AlbumRuns.RunConservesExactly` for ids committed once.
- `AlbumRuns.RunRenditions`: ALAC and AAC rows never stand beside each other exactly when no
  upsert puts one beside the other, as those of `AlbumRuns.UpsertsMixRenditions` do.
- `Stamp.StampFailsExactly`: a stamp that fails leaves the file as it was, except when the movie
  header's field fits and the media header's does not; `MuxedStamp.HalfStampedFile` is such a
  file.
- `ZipPlan.GroupTracks`: the plan fails by overflow exactly when the part left open and the next
  track exceed 64 bits, which can happen although a split exists (`ZipPlan.PlannerOverflows`)
  but not below a third of the range (`ZipPlan.OnlyLargeMisfit`).
- `Playback.ActiveOkExactly`: the active device stays meaningful exactly when no transfer names
  an absent device and no hello gives up the active device for another; `RenameBreaksActive` is
  a run without transfers that breaks it.
- `Sessions.LogoutAtOnce`: a logged-out token is still accepted, for less than a minute, exactly
  when the logout text had outer whitespace and the cache held the trimmed token;
  `Sessions.LogoutLeavesAccess` is such a run.
- `Sessions.OneSessionPerCode`: of codes issued once, none makes two sessions exactly when no
  exchange redeems a code between another redeeming exchange's read of it and its finish;
  `Sessions.TwoSessionsFromOneCode` is a run in which one does.

## Model

| member | source | states |
|---|---|---|
| BoxWalk.ReadChildren | crates/media/src/fragmented.rs:98-139 | The lenient walk returns `Children` of the range, for 32-bit, 64-bit and to-the-end sizes |
| BoxWalk.ChildrenTiled | crates/media/src/fragmented.rs:131-139 | The boxes of a walk lie inside the range, are disjoint and contiguous, and start at the range start |
| BoxWalk.StrictBoxes | crates/media/src/remux.rs:235-263 | The strict walk either fails or returns all boxes up to the range end, as `StrictWalk` describes |
| Boxes.ReadHeaderExactly | crates/media/src/fragmented.rs:98-129 | The header reader accepts a box exactly when one of the three forms of section 4.2, with a 32-bit size, a 64-bit size or to the end, is written there, long enough for its header and ending by the limit |
| Boxes.ReadBoxFails | crates/media/src/remux.rs:265-307 | The strict reader says truncated, truncated large or a read error exactly when the header does not fit its parent, its large form does not, or the file ends before it |
| Boxes.EntryVersions | crates/media/src/remux.rs:455-461 | An entry is refused for its version exactly when that is above 2 |
| Boxes.EntryBoxesFound | crates/media/src/remux.rs:451-462 | In an audio sample entry laid out field by field, of version 0, 1 or 2, the walk from the offset chosen finds exactly the boxes the entry holds |
| Boxes.SinfInEntry | crates/media/src/remux.rs:451-513 | For every such entry the test says whether one of its boxes is a `sinf` |
| BoxWalk.ReadersAgree | crates/media/src/remux.rs:265-307 | On any buffer and range the strict reader accepts a box exactly when the lenient one does, and then both read the same box |
| BoxWalk.WalkersAgree | crates/media/src/remux.rs:235-307 | The strict walk succeeds exactly when the lenient one ends at the range end, with the same boxes; otherwise the lenient one returns exactly the boxes read before the failure |
| BoxWalk.WalkIsContiguous | crates/media/src/fragmented.rs:131-139 | Each box of a walk starts where the one before ends |
| BoxWalk.WalkIsComplete | crates/media/src/fragmented.rs:131-139 | Every box of a walk is one the reader accepts, and the walk goes on until it accepts none |
| BoxWalk.ContainsSinf | crates/media/src/remux.rs:451-513 | Past the version check the answer is yes when the walk of the entry's children meets a `sinf`, no when there is none and nothing is left over, and otherwise the strict walk's error, a short header being called a truncated entry and an overflowing size invalid bounds |
| BoxWalk.SinfAmong | crates/media/src/remux.rs:463-513 | The loop over the entry's children stops at the first `sinf`, at the end, or with the strict walk's error in those words |
| FragmentScanner.FragmentScan.ScanFullHeader | crates/media/src/fragmented.rs:202-224 | Updates the scan as `Fragmented.FullHeader` says and nothing else |
| FragmentScanner.FragmentScan.ScanMdia | crates/media/src/fragmented.rs:189-200 | Updates the scan by every media header of the track |
| FragmentScanner.FragmentScan.ScanMoov | crates/media/src/fragmented.rs:173-187 | Updates the scan by the movie header, the extension defaults and the tracks, in box order |
| FragmentScanner.FragmentScan.AddMoof | crates/media/src/fragmented.rs:327-346 | A fragment that resolves adds its ticks, saturating, and moves the end to its decode time plus its ticks |
| FragmentScanner.ScanFile | crates/media/src/fragmented.rs:327-346 | The scan of a file is `Fragmented.Scan` of its bytes |
| FragmentScanner.SumRun | crates/media/src/fragmented.rs:272-307 | The accumulating loop gives the checked sum of the run, or the default duration times the count, or nothing; `Layout.TrunReadBack` says what that means of a run laid out by its flags |
| FragmentScanner.SumFragment | crates/media/src/fragmented.rs:226-254 | A fragment's ticks are the checked sum over its tracks and runs, and none unless some run resolves |
| FragmentScanner.FindDecodeTime | crates/media/src/fragmented.rs:309-325 | The decode time of a fragment is that of the first track fragment that has one |
| NonInterference.ChildrenLocal | crates/media/src/fragmented.rs:131-139 | A walk depends only on the headers of the boxes it meets and the bytes where it stops |
| NonInterference.QuietEditsKeepScan | crates/media/src/fragmented.rs:173-346 | In a file whose boxes are long enough for the fields they declare, an edit confined to bytes the scanner does not read leaves the top-level boxes and the whole scan unchanged |
| Stamp.ScanLocated | crates/media/src/fragmented.rs:202-224 | A scan's duration fields are those of a movie header and of a media header really in the file |
| Stamp.MvhdFieldQuiet | crates/media/src/fragmented.rs:35-64 | Every byte of the movie header's duration field is unread by the scanner |
| Stamp.MdhdFieldQuiet | crates/media/src/fragmented.rs:35-64 | The same for the media header |
| Stamp.FieldBytesHold | crates/media/src/fragmented.rs:47-64 | The bytes written for a field read back as the ticks modulo 2^32 or 2^64 |
| Stamp.StampFieldsWrite | crates/media/src/fragmented.rs:354-374 | Writing fields that lie apart leaves each holding the ticks and changes no other byte |
| Stamp.RestampKeeps | crates/media/src/fragmented.rs:354-374 | Writing fields that already hold the ticks changes no byte |
| Stamp.StampFailsExactly | crates/media/src/fragmented.rs:354-374 | A stamp fails exactly when there is no duration or a field does not fit; it then leaves the file as it was unless only the media header's field does not fit, when the movie header's alone is written |
| MuxedStamp.CutFileHalfStamped | crates/media/src/fragmented.rs:202-374 | Every file of a fragment that lasts some time and a movie box whose media header ends with its timescale is left half stamped |
| MuxedStamp.HalfStampedFile | crates/media/src/fragmented.rs:354-374 | There is such a file |
| Stamp.StampSound | crates/media/src/fragmented.rs:354-374 | In such a file a stamp changes only bytes of the two duration fields, each then holds the ticks modulo its width, a rescan finds the same ticks, timescale and offsets, and a second stamp changes nothing |
| Stamp.StampFragmentedDuration | crates/media/src/fragmented.rs:354-374 | The in-place stamp leaves in the array what `Stamped` says and returns the ticks and timescale |
| FragmentTime.RunIsExactSum | crates/media/src/fragmented.rs:296-307 | A run resolves exactly when every sample lies inside the file, and its ticks are the exact sum: no 64-bit overflow can occur |
| FragmentTime.UniformSum | crates/media/src/fragmented.rs:280-307 | Samples that all last `d` sum to the count times `d` |
| FragmentTime.RunFormsAgree | crates/media/src/fragmented.rs:272-307 | The per-sample form of a uniform run and the default-duration form give the same ticks |
| FragmentTime.SumIsConserved | crates/media/src/fragmented.rs:327-346 | The sum of ticks is the saturated sum over the fragments that resolve |
| FragmentTime.DurationIsLength | crates/media/src/fragmented.rs:66-96 | For every file there is a duration exactly when the timescale and the length of the resolved fragments are above zero, and it is that length: the latest end, or the saturated sum when none ends past the start |
| FragmentTime.LengthExists | crates/media/src/fragmented.rs:66-96 | Every file has exactly one length |
| FragmentTime.FragmentTimeConserved | crates/media/src/fragmented.rs:327-346 | If each fragment that resolves starts at the ticks of all before it, the end equals the sum, for any number of fragments below 2^64 ticks |
| Layout.FlagIsDigit | crates/media/src/fragmented.rs:256-299 | Testing a flag by its weight finds exactly the binary digit of that weight, for every flags word |
| Unreadable.HeaderUnreadable | crates/media/src/fragmented.rs:202-224 | A header without a readable timescale changes nothing; any other is remembered, whether or not its duration is in the file |
| Unreadable.LastExtensionDecides | crates/media/src/fragmented.rs:173-187 | The last extension box decides the default duration, and takes it away when it cannot be read |
| Unreadable.DefaultUnreadable | crates/media/src/fragmented.rs:256-270 | A fragment header gives a default exactly when its flags are in the file, say so, and the field is in the file |
| Unreadable.DefaultFallsBack | crates/media/src/fragmented.rs:226-254 | Without one of its own a track fragment has the track's default, unless that is zero |
| Unreadable.RunUnreadable | crates/media/src/fragmented.rs:272-307 | A run resolves exactly when its header is in the file and it has a default, or all its sample durations are in the file |
| Unreadable.FirstTimeDecides | crates/media/src/fragmented.rs:309-325 | The first track fragment with a decode time decides, even when that time cannot be read |
| Unreadable.TimeUnreadable | crates/media/src/fragmented.rs:309-325 | A decode time is known exactly when its version and its 4 or 8 bytes are in the file |
| Layout.HeaderReadBack | crates/media/src/fragmented.rs:202-224 | In a movie or media header laid out by sections 8.2.2 and 8.4.2, of either version, the scanner finds the timescale and its field is the duration |
| Layout.TfhdReadBack | crates/media/src/fragmented.rs:256-270 | In a track fragment header laid out by section 8.8.7 the default duration is found under every choice of optional fields, a field being there when its binary digit of the flags is set |
| Layout.TfdtReadBack | crates/media/src/fragmented.rs:309-325 | A decode time laid out by section 8.8.12 is read back, in both versions |
| Layout.TrunReadBack | crates/media/src/fragmented.rs:272-307 | A run laid out by section 8.8.8, with the optional fields its flags' binary digits say and of a shape the stride serves, is read as the sum of its sample durations or the default for each sample |
| Layout.RunsReadExactly | crates/media/src/fragmented.rs:288-307 | For given version, flags and sample count every laid-out run is read as lasting what it should exactly when the version is not 1, flag 0x800 or 0x100 is clear, or there is at most one sample |
| Layout.VersionOneMisread | crates/media/src/fragmented.rs:288-307 | A version 1 run with flags 0x900 and two samples is misread |
| Muxed.ChildrenLaid | crates/media/src/fragmented.rs:98-139 | The walk of bytes written for a list of boxes finds exactly those boxes |
| Muxed.FragmentLaid | crates/media/src/fragmented.rs:226-325 | A laid-out fragment, with any number of track fragments and runs, lasts the sum of all its runs, if it has one, knows each and stays within 64 bits, and starts at its first decode time |
| Muxed.MoovLaid | crates/media/src/fragmented.rs:173-224 | A laid-out movie box, with any number of tracks and other boxes, gives the timescale of its headers and the default duration of its last extension box |
| Muxed.MuxedFileScans | crates/media/src/fragmented.rs:327-346 | For every tree of boxes, with or without headers, defaults and decode times and with other boxes anywhere, the scan of the bytes written for it is what the boxes mean |
| MuxedStamp.MuxedWellSized | crates/media/src/fragmented.rs:173-346 | Every box of such a file holds the fields it declares, so stamping it is sound |
| MuxedStamp.MuxedStamp | crates/media/src/fragmented.rs:327-374 | Stamping the bytes of any tree of boxes returns the length of its fragments over the timescale, writes it in the movie and media headers found, changes no other byte and no scan, and a second stamp changes nothing |
| MuxedStamp.GaplessStamp | crates/media/src/fragmented.rs:327-374 | Without gaps that length is the sum of all samples |
| Remux.CheckTimeline | crates/media/src/remux.rs:121-153 | The sample loop accepts exactly the timelines whose samples are numbered in place, start when all earlier ones end, are not empty, keep one description and stay in range; the error is that of the first sample at fault and its first failing check |
| Remux.AcceptedExactly | crates/media/src/remux.rs:121-153 | Said of neighbours: the accepted timelines start at zero, leave no gap, end within 64 bits, and hold only sound samples |
| Remux.TimelineTiles | crates/media/src/remux.rs:121-153 | In an accepted timeline each sample ends where the next starts |
| Queue.SequentialRipQueue.Submit | crates/engine/src/queue.rs:137-211 | The locked section appends the item, hands out the next id, and starts a worker exactly when none runs |
| Queue.SequentialRipQueue.Clear | crates/engine/src/queue.rs:108-118 | Nothing waits any more, each item that did is owed `Cleared`, in order, and nothing else changes |
| Queue.SequentialRipQueue.AbortItem | crates/engine/src/queue.rs:228-263 | The waiting item of the id leaves, the others keep their order, exactly one `Aborted` answer is added to those owed, and those behind it are told their new place; any other id changes nothing |
| Queue.SequentialRipQueue.TakeNext | crates/engine/src/queue.rs:271-287 | The item taken is the earliest with the top score and the rest keep their order |
| Queue.SequentialRipQueue.WorkerTake | crates/engine/src/queue.rs:289-311 | The worker takes the top item, or stops and clears `processing` when none waits |
| Queue.SequentialRipQueue.WorkerFinish | crates/engine/src/queue.rs:311-337 | After an item the worker goes on, or stops exactly when none waits |
| Queue.WaitedWhole | crates/engine/src/queue.rs:271-287 | Waiting counts in whole seconds of 10^9 ns |
| Queue.TopLeads | crates/engine/src/orchestrator/priority.rs:86-93 | The item taken leads every other by priority and whole seconds of waiting, with ties going to the front: enough priority does overtake |
| QueueOutcomes.AbortedNeverStarts | crates/engine/src/queue.rs:228-263 | In every run an item aborted while it waits never starts, before or after, and `Aborted` is its one answer |
| QueueOutcomes.ClearedNeverStarts | crates/engine/src/queue.rs:108-118 | The same for every item waiting when the queue is cleared, with `Cleared` |
| QueueOutcomes.ResultsAreOfStarted | crates/engine/src/queue.rs:289-337 | In every run exactly the items that started run or have a result |
| Queue.TopIsFair | crates/engine/src/orchestrator/priority.rs:86-93 | The top item was submitted before every other of its priority, and overtakes an earlier one only by enough priority |
| Queue.StepCensus | crates/engine/src/queue.rs:108-337 | A step adds the id of an accepted submission to the census and loses or doubles none |
| Queue.StepKeepsInv | crates/engine/src/queue.rs:108-337 | Every locked section keeps conservation, the single worker, the order, fairness and the reported positions |
| Queue.QueueSafety | crates/engine/src/queue.rs:108-337 | In every run each accepted item is waiting, running, owed or answered, answered at most once; a worker is live exactly when `processing` is set; none is missing while an item waits |
| Queue.StartsAreFair | crates/engine/src/queue.rs:271-311 | In every run items of one priority start in submission order, whatever is aborted |
| Queue.PositionsAreCurrent | crates/engine/src/queue.rs:165-195 | In every run the last position told to a waiting item is its index plus one |
| Queue.WorkerNeverStuck | crates/engine/src/queue.rs:289-337 | While `processing` is set the worker always has a step to take |
| Queue.QueueDrains | crates/engine/src/queue.rs:289-337 | Without submissions the worker takes a bounded number of steps, and when it has none left nothing waits or runs |
| Filename.BoundUtf8Prefix | crates/engine/src/filename.rs:138-147 | Stepping back to a character boundary gives the longest prefix within the bytes |
| Filename.BoundPrefixMaximal | crates/engine/src/filename.rs:138-147 | No longer prefix of whole characters fits |
| Filename.SuffixSurvives | crates/engine/src/filename.rs:56-88 | However long the name, the bounded name keeps its whole suffix and fits |
| Filename.CollisionForm | crates/engine/src/filename.rs:90-109 | A name with a counter is a bounded stem, an underscore, the counter and the extension, and fits |
| Filename.CollisionIdsDiffer | crates/engine/src/filename.rs:90-109 | Different counters give different names |
| Filename.PartialNames | crates/engine/src/filename.rs:127-135 | A partial mark keeps an archive name within the limit and can be undone |
| Filename.PartialWritten | crates/engine/src/filename.rs:127-135 | The mark goes before `.zip`, or at the end |
| WrittenNames.FallbackWritten | crates/engine/src/filename.rs:56-88 | A name that is blank or dots once forbidden characters are replaced becomes `track` |
| Filename.TrackNames | crates/engine/src/filename.rs:160-177 | Every track name fits and keeps its codec tag and extension |
| WrittenNames.ForbiddenIsRefused | crates/engine/src/filename.rs:149-154 | The characters no name may hold are nine marks and the control characters of both blocks |
| WrittenNames.AlwaysLegal | crates/engine/src/filename.rs:56-88 | Every text becomes a legal name within the limit, whatever the suffix |
| WrittenNames.LegalIsKept | crates/engine/src/filename.rs:56-88 | A legal name without outer space is kept as it is |
| WrittenNames.ExtensionOf | crates/engine/src/filename.rs:90-95 | The extension is what follows the last dot, with it, when something precedes that dot |
| WrittenNames.CollisionWritten | crates/engine/src/filename.rs:90-109 | A name with a counter keeps the longest stem that fits before the counter and the extension |
| WrittenNames.LabelsWritten | crates/engine/src/filename.rs:167-177 | The label and extension of each codec |
| WrittenNames.TrackNameWritten | crates/engine/src/filename.rs:160-177 | Letter by letter, the name of a track whose title and artist are legal and that fits |
| WrittenNames.EntryNameWritten | crates/engine/src/zip.rs:76-94 | The same for an archive entry within 240 bytes |
| WrittenNames.YearWritten | crates/engine/src/zip.rs:308-313 | The year of a date that starts with four digits, in brackets; nothing otherwise |
| WrittenNames.PartNameWritten | crates/engine/src/zip.rs:307-335 | The same for an archive part within 245 bytes |
| Ripper.ClaimName | crates/engine/src/ripper.rs:645-663 | The loop ends after at most one try for each existing file and one more, at the first candidate no file has |
| Ripper.TriesBounded | crates/engine/src/ripper.rs:877-881 | As many tries refused means as many different existing files |
| Ripper.TrackNamesAreClaimable | crates/engine/src/ripper.rs:645-663 | Every track name meets what the loop needs |
| ZipNames.EntryNamesDiffer | crates/engine/src/zip.rs:76-94 | Entries of different numeric track ids have different names, whatever was cut |
| ZipNames.ValidIsSafe | crates/engine/src/zip.rs:188-203 | Validation passes exactly the names of at most 240 bytes that are not empty, hold no ASCII control character, do not start with a slash and have no `..` component |
| ZipNames.EntryNameIsValid | crates/engine/src/zip.rs:188-203 | A built entry name passes validation and is not the manifest's |
| ZipNames.PartNamesDiffer | crates/engine/src/zip.rs:317-325 | Two parts of one archive have different names within 245 bytes |
| ZipPlan.CheckTracks | crates/engine/src/zip.rs:240-261 | The first track with an invalid or repeated name or a changed size decides the error; there is none exactly when all names are safe and different and no size has changed, and otherwise it names what is wrong with the first track that follows sendable ones |
| ZipPlan.NumericIdsPassChecks | crates/engine/src/zip.rs:240-246 | For tracks named by different numeric ids only a changed size can stop the plan |
| ZipPlan.GroupTracks | crates/engine/src/zip.rs:280-305 | The greedy loop gives an in-order split obeying the part rule with no part able to take the next track, and fails exactly for the first track that is over the limit or, with the part left open, over 64 bits |
| ZipPlan.OnlyLargeMisfit | crates/engine/src/zip.rs:280-301 | While three times the usable size fits in 64 bits only a track over the limit is refused |
| ZipPlan.OverflowDespiteSplit | crates/engine/src/zip.rs:286-297 | Two tracks that each fit but sum to more than 64 bits are refused although a split exists, for every usable size |
| ZipPlan.PlannerOverflows | crates/engine/src/zip.rs:224-301 | The planner refuses two tracks of half the range by overflow although they pass every check and split |
| ZipPlan.TightIsOptimal | crates/engine/src/zip.rs:280-305 | No in-order split obeying the rule has fewer parts |
| ZipPlan.PlanZipParts | crates/engine/src/zip.rs:224-335 | With 512 bytes for each track, cover and manifest entry and 65536 besides, every part of the plan stays within the limit, no in-order split obeying that rule has fewer parts, and the parts are numbered from one with a shared total and their own names; below a third of the range it exists exactly for acceptable input, and is otherwise refused with the error of the first check that fails, said of the input itself |
| ZipPlan.SplitIsLimitSplit | crates/engine/src/zip.rs:262-305 | A split obeys the planner's rule exactly when each part, with what the archive adds, is within the limit, a cover counting only where two tracks share a part |
| ZipPlan.PlannableIsAcceptable | crates/engine/src/zip.rs:224-301 | Below a third of the range the planner refuses exactly an unsafe or repeated name, a changed size, and a limit too small for the cover or a track |
| ZipPlan.PlannedNamesDiffer | crates/engine/src/zip.rs:314-334 | No two parts of a plan share a name |
| Albums.AlbumTable.ReplaceAlbums | crates/db/src/albums.rs:98-192 | A replacement commits, is stale or fails exactly as the group and the constraints say, and the new table is the other groups plus the uploads |
| Albums.AlbumTable.DeleteAlbums | crates/db/src/albums.rs:194-212 | A deletion with nothing in between returns the rows it deletes |
| Albums.AlbumTable.SaveAlbum | crates/db/src/albums.rs:71-96 | An accepted upsert updates the row of its key in place or adds one, and is refused exactly when a check fails or another key has the file |
| AlbumRules.MembersExactly | crates/db/src/albums.rs:127-147 | A group is the rows of its album with the same kind of codec, lossless and AAC together, Atmos apart |
| AlbumRules.OutcomeExactly | crates/db/src/albums.rs:149-192 | A call with a misaddressed upload is refused; else it is stale exactly when the group is not as expected, where a generation expects a group that is not empty and is all of it and `Mixed` is never met; else it fails exactly when an upload breaks a check or collides with a row or another upload; else it commits |
| AlbumRules.AfterExactly | crates/db/src/albums.rs:149-192 | After a commit the table holds the rows outside the group and the uploads under new row ids, and nothing else |
| AlbumRules.DisplacedExactly | crates/db/src/albums.rs:149-192 | The message ids handed back are exactly those of the group's rows |
| AlbumRules.FoundExactly | crates/db/src/albums.rs:194-212 | A deletion finds the rows of its album and, when given, of its codec, and leaves the rest |
| AlbumRules.SavesExactly | crates/db/src/albums.rs:71-96 | An upsert replaces the row of its album, codec and part, or adds one, and touches no other |
| AlbumRuns.StepConserves | crates/db/src/albums.rs:71-212 | A call keeps the account of message ids exactly when it reports the ids it takes off the table |
| AlbumRuns.DeletionBalances | crates/db/src/albums.rs:194-212 | A deletion reports exactly what it deletes if and only if, between its read and its delete, the other calls took from the selected rows the ids they gave to them |
| AlbumRuns.DeletionExactly | crates/db/src/albums.rs:194-212 | With no id committed twice this is so if and only if no call in between takes an id that was read and every id given to the selection in between is also taken in between |
| AlbumRuns.OtherAlbumsDoNotDisturb | crates/db/src/albums.rs:194-212 | Calls on other albums never make a deletion inexact |
| AlbumRuns.RunConserves | crates/db/src/albums.rs:71-212 | From an empty table, at every point the committed ids are exactly those in the table plus those reported, if and only if no upsert overwrites another message id and every deletion's selection was taken from, since its read, exactly what it was given; ids may repeat |
| AlbumRuns.ReplacementsConserve | crates/db/src/albums.rs:127-192 | Any run of replacements keeps the account, whatever ids it uses |
| AlbumRuns.RunConservesExactly | crates/db/src/albums.rs:71-212 | With no id committed twice the condition on deletions is that none is disturbed |
| AlbumRuns.StaleDeleteLosesAnId | crates/db/src/albums.rs:194-212 | A replacement between a deletion's read and its delete loses an id |
| AlbumRuns.UpsertLosesAnId | crates/db/src/albums.rs:71-96 | An upsert over a row with another message id loses that id |
| AlbumRuns.RunIsUnique | crates/db/src/albums.rs:71-212 | In every run of replacements, deletions and upserts keys and files are unique and the checks hold |
| AlbumRuns.RunRenditions | crates/db/src/albums.rs:71-192 | No album has both ALAC and AAC rows at any point of a run if and only if no upsert puts one beside the other |
| AlbumRuns.UpsertsMixRenditions | crates/db/src/albums.rs:71-96 | Two upserts leave an album with both |
| Albums.ReplaceIsLocal | crates/db/src/albums.rs:149-187 | A commit swaps its own group for the uploads; every other group, and every group of a stale call, is untouched |
| AlbumRuns.NoTwoFirstUploads | crates/db/src/albums.rs:149-162 | Between two commits to a group, the first not empty and the second expecting Empty, some event takes away the last rows of that group: a commit of nothing to it, or a deletion that selects from it |
| AlbumRuns.NoLostUpdate | crates/db/src/albums.rs:149-162 | Between two commits to a group, the first bringing in another generation than the one the second expects, some event makes the group all of that generation again |
| Listing.CompleteExactly | crates/server/src/lookup.rs:232-268 | Parts are complete exactly when all share a total above zero and a hash and each number from one to the total is there exactly once |
| Lookup.HasCompleteArchiveParts | crates/server/src/lookup.rs:232-268 | The array of seen parts answers exactly whether the indices are a permutation of 1..n with one total n of at least 1 and one hash |
| Lookup.CompleteIgnoresOrder | crates/server/src/lookup.rs:232-268 | Completeness does not depend on the order of the rows |
| Lookup.ListingIgnoresOrder | crates/server/src/lookup.rs:205-230 | Nor does the whole listing |
| Lookup.SortedPart | crates/server/src/lookup.rs:205-230 | The k-th part listed is the row with index k+1 |
| Listing.ListingExactly | crates/server/src/lookup.rs:205-268 | A codec is listed exactly when its rows share a total and a hash and each number up to the total is there once; then row by row, ALAC before AAC before Atmos, under their names |
| Lookup.PlannedAlbumIsListed | crates/server/src/lookup.rs:205-268 | Once every part of a plan is committed under one hash, the lookup lists exactly those parts in order |
| Lookup.NormalizeIds | crates/server/src/lookup.rs:166-182 | Refused exactly when an id is blank, else the trimmed ids at their first occurrence |
| Lookup.FirstOccurrencesDiffer | crates/server/src/lookup.rs:166-182 | No id is kept twice and none is dropped |
| Text.TrimIs | crates/server/src/lookup.rs:166-182 | Trimming takes the white space around a text, all of it and nothing else |
| Text.WhitespaceWritten | crates/server/src/lookup.rs:166-182 | The 25 white space characters, and the control characters |
| Listing.FirstOccurrencesAt | crates/server/src/lookup.rs:166-182 | The ids come back trimmed and in the order of their first occurrences |
| Html.HtmlEscape | crates/bot/src/caption.rs:113-126 | The loop escapes each of five characters and no other |
| Html.EscapesWritten | crates/bot/src/caption.rs:113-126 | The five characters and what each becomes; every other stays |
| Html.UnescapeHtml | crates/bot/src/html.rs:66-139 | The nested loops compute `Unescape` |
| Html.UnescapeOfEscape | crates/bot/src/html.rs:66-139 | Unescaping undoes escaping, for every string |
| Html.UnescapeNumeric | crates/bot/src/html.rs:109-123 | The decimal entity of any character is read back as it |
| Html.UnescapePlus | crates/bot/src/html.rs:109-123 | With a plus sign too |
| Html.UnescapeHexadecimal | crates/bot/src/html.rs:109-123 | So is the hexadecimal one, with either marker and either case |
| Html.UnescapeNamed | crates/bot/src/html.rs:95-108 | Five names are read as their characters; any other is left as it was written |
| Html.UnescapeNoCharacter | crates/bot/src/html.rs:109-123 | A number that is no character is left as it was written |
| Html.UnescapeNoNumber | crates/bot/src/html.rs:95-123 | So is a numeric entity whose text is no number of 32 bits in its radix |
| Html.UnescapeUnclosed | crates/bot/src/html.rs:66-139 | A text without a semicolon is left as it is |
| Html.UnescapeClosed | crates/bot/src/html.rs:76-94 | A closed name is read as an entity exactly when all but its last character take at most ten bytes, and is left as it was written otherwise |
| Html.EstimateHtmlUtf16Len | crates/bot/src/caption.rs:25-59 | The loops compute `HtmlLen` |
| Html.EscapedLength | crates/bot/src/caption.rs:25-59 | The estimate of an escaped text is the UTF-16 length of the text |
| Html.HtmlLenTag | crates/bot/src/caption.rs:25-59 | A tag counts one unit when it is a line break and none otherwise, closed or not |
| Html.BreaksWritten | crates/bot/src/caption.rs:40-43 | Which tags count as line breaks and which do not |
| Html.HtmlLenAmpersand | crates/bot/src/caption.rs:25-59 | An ampersand without a semicolon counts one unit with what follows up to a space or a tag |
| Json.GetLast | crates/bot/src/caption.rs:288-335 | Of fields with one key the last is read |
| Json.EscapesPrinted | crates/bot/src/caption.rs:245-253 | How control characters, quotes, backslashes and the three guarded characters are printed |
| Json.EscapesRead | crates/bot/src/caption.rs:288-297 | Which letters after a backslash are read, and as what; no other is |
| Json.UnicodeRead | crates/bot/src/caption.rs:288-297 | Every character is read back from its number, as four digits in either case or as a surrogate pair |
| Json.DecodePrinted | crates/bot/src/caption.rs:245-253 | Reading a printed flat object, guarded or not, gives it back |
| Json.DecodeSpaced | crates/bot/src/caption.rs:288-335 | So does reading it with white space around the braces and between any two tokens |
| Caption.GuardPrinted | crates/bot/src/caption.rs:249-252 | Replacing `&`, `<` and `>` in the printed object is printing with those characters escaped |
| Caption.CaptionLength | crates/bot/src/caption.rs:253-256 | A guarded caption has no markup and the estimate is its true length |
| Text.WidthsWritten | crates/bot/src/caption.rs:12-20 | Where the UTF-8 and UTF-16 widths of a character change |
| Caption.ClampStrUtf16 | crates/bot/src/caption.rs:5-23 | A string that fits is kept; a long one becomes its longest prefix that leaves room for an ellipsis, and the ellipsis |
| Caption.RoundProgress | crates/bot/src/caption.rs:258-279 | While the caption is too long there is a string to cut and the summed length of the strings strictly falls |
| Caption.RoundExactly | crates/bot/src/caption.rs:258-279 | A round touches only the last of the longest strings and takes off it what is too much for 1024 units, at most one unit more, or all of it |
| Caption.SettleStep | crates/bot/src/caption.rs:245-280 | Rounds are made as long as the caption is over 1024 units, and no longer |
| Caption.SerializeCaptionPayload | crates/bot/src/caption.rs:245-280 | The loop terminates, with the caption of the settled object |
| Caption.SettleSound | crates/bot/src/caption.rs:245-280 | The result fits and reads back as an object with the same keys and numbers, each string whole, emptied or a prefix with an ellipsis; what fits is untouched |
| CaptionScan.NormalizeRecovers | crates/bot/src/caption.rs:364-371 | The replacements recover every text from its escaped form, and leave a text without markup alone |
| CaptionScan.NormalizeBreaks | crates/bot/src/caption.rs:364-371 | Both forms of a line break become a new line |
| CaptionScan.FindEnd | crates/bot/src/caption.rs:378-408 | The inner loop finds where the scanner closes the first brace |
| CaptionScan.ExtractBalancedJson | crates/bot/src/caption.rs:363-420 | The loops return the first candidate that parses and has the key |
| CaptionScan.ScanPrinted | crates/bot/src/caption.rs:378-408 | The scanner ends a printed object exactly at its own closing brace, whatever its strings hold |
| CaptionScan.CaptionIsFound | crates/bot/src/caption.rs:363-420 | A caption is found again after text that opens no brace: as sent, amid text without markup, and amid any text once that was HTML-escaped |
| CaptionScan.ExtractSound | crates/bot/src/caption.rs:363-420 | What is found lies in the text, between braces, is readable and has the key, which stands in quotes from there on |
| CaptionScan.ExtractFirst | crates/bot/src/caption.rs:363-420 | The first brace that starts such an object is the one taken |
| CaptionScan.TrackCaptionRoundTrip | crates/bot/src/caption.rs:288-309 | For every id whose caption needs no clamping, parsing gives back the id and canonical codec, or nothing for an empty id |
| CaptionScan.ZipCaptionRoundTrip | crates/bot/src/caption.rs:311-335 | The same for archives, with numbers raised to at least one |
| CaptionScan.TrackCaptionWritten | crates/bot/src/caption.rs:206-221 | Letter by letter, the caption of a track that needs no clamping |
| CaptionScan.ZipCaptionWritten | crates/bot/src/caption.rs:223-243 | The same for an archive; nothing is written for an incomplete one |
| CaptionScan.CanonicalWritten | crates/bot/src/caption.rs:206-221 | No codec, or a text that names none, stands for ALAC |
| Music.LoweredWritten | crates/music/src/lib.rs:183 | Lowering touches the 26 ASCII capitals alone |
| Music.CodecNames | crates/music/src/lib.rs:179-190 | The texts that name each codec, trimmed and in lower case; no other text names one |
| CaptionScan.NumberFieldExactly | crates/bot/src/caption.rs:322-335 | A part number that is missing, no number, below one or beyond 63 bits reads as one, and any other as itself, cut to 32 bits |
| CaptionScan.TrackCaptionFits | crates/bot/src/caption.rs:206-221 | Every track caption is within 1024 units and an object with the same keys |
| CaptionScan.ZipCaptionFits | crates/bot/src/caption.rs:223-243 | Every archive caption is within 1024 units and an object with the same keys and numbers |
| Playback.SyncRoom.Hello | crates/server/src/playback_sync.rs:335-358 | A hello leaves the old device if owned, records device and owner, and becomes active when none is |
| Playback.SyncRoom.ReportState | crates/server/src/playback_sync.rs:368-382 | The active device's report is stored, and no other |
| Playback.SyncRoom.TransferPlayback | crates/server/src/playback_sync.rs:388-397 | The target becomes active, present or not |
| Playback.SyncRoom.Close | crates/server/src/playback_sync.rs:458-470 | Closing removes an owned device and, if it was active, picks one that is left |
| Playback.SyncRoom.RemoveDeviceConnection | crates/server/src/playback_sync.rs:628-634 | Only the recorded owner takes a device away |
| Playback.RunKeepsInv | crates/server/src/playback_sync.rs:335-470 | In every run both maps have the same keys and each owner is a live connection whose current device is that key |
| Playback.NoDeviceLeft | crates/server/src/playback_sync.rs:458-470 | No device is left once all connections have closed |
| Playback.StaleNeverRemoves | crates/server/src/playback_sync.rs:628-634 | A connection that no longer owns a device cannot remove it |
| Playback.ActiveOkExactly | crates/server/src/playback_sync.rs:335-470 | From a good state exactly two kinds of event make the active device meaningless |
| Playback.SteadyRunsStayOk | crates/server/src/playback_sync.rs:335-470 | Without transfers to absent devices and changes of id, the active device is None exactly when the room is empty, else registered |
| Playback.RenameBreaksActive | crates/server/src/playback_sync.rs:335-341 | A device that says hello under a second id leaves an active device the room does not have |
| Playback.AbsentActiveStays | crates/server/src/playback_sync.rs:350-352 | Only a transfer or that device's own hello ends such a state |
| Playback.ReportStored | crates/server/src/playback_sync.rs:368-382 | A report changes the room exactly when it comes from the active device, and then only its snapshot |
| Playback.SnapshotFromActive | crates/server/src/playback_sync.rs:368-382 | A stored snapshot comes from the active device |
| Throttle.ProgressThrottle.ShouldEmit | crates/bot/src/main.rs:24-45 | Emits the first snapshot, a change of phase, or a change after the interval, and remembers exactly what it emits |
| Throttle.SamePhaseIsEquality | crates/bot/src/main.rs:47-108 | The field-by-field comparison is equality of phases |
| Throttle.PhaseExactly | crates/bot/src/main.rs:47-108 | Two snapshots are in one phase exactly when they differ in nothing but artwork, bytes, percentages, codecs, track numbers of lanes and failed tracks |
| Throttle.EqualExactly | crates/bot/src/main.rs:24-45 | Snapshots compare equal exactly when they are the same and hold no not-a-number |
| Throttle.PhasesPreserved | crates/bot/src/main.rs:24-108 | Once repeats are dropped, emissions and inputs go through the same phases |
| Throttle.EmissionsApart | crates/bot/src/main.rs:24-45 | Neighbouring emissions of one phase differ and are at least 250 ms apart |
| Throttle.EmissionsFresh | crates/bot/src/main.rs:24-45 | What was last shown equals the last input or is less than 250 ms older |
| Stall.MonitorUpload | crates/bot/src/telegram_sink.rs:22-86 | The loop computes `Run` over the turns it gets, with the upload before the deadline before the tick |
| Stall.StallExactly | crates/bot/src/telegram_sink.rs:48-63 | A stall is reported exactly when some reading a full timeout earlier, and all since, show the value seen now |
| Stall.FinishedExactly | crates/bot/src/telegram_sink.rs:32-47 | A finished upload ends the watch at once with its own result, unless it succeeded with a count beyond the total |
| Stall.EndedForGood | crates/bot/src/telegram_sink.rs:32-86 | A watch that has ended stays as it ended |
| Stall.InvalidExactly | crates/bot/src/telegram_sink.rs:64-86 | While it is pending a count beyond the total fails it exactly at a tick before the deadline |
| Stall.TickGrid | crates/bot/src/telegram_sink.rs:22-47 | Ticks are due on the first multiple of 500 ms after the last |
| Stall.GrowingNeverStalls | crates/bot/src/telegram_sink.rs:48-80 | A counter that grows within every timeout window never stalls, however late the turns come |
| Stall.FrozenIsFailed | crates/bot/src/telegram_sink.rs:32-86 | A frozen pending transfer is failed within one sample, the timeout and the lateness of the turns |
| Sessions.AuthServer.CreateLoginCode | crates/db/src/session.rs:63-121 | Clears the user's codes and expired ones before adding the new code; refuses unknown users |
| Sessions.AuthServer.Exchange | crates/db/src/session.rs:123-197 | An open code is deleted and makes one session and one cache entry; an unauthorized one is only deleted |
| Sessions.AuthServer.VerifyAndSlide | crates/db/src/session.rs:199-283 | Accepts exactly standing sessions of known users and slides their expiry |
| Sessions.AuthServer.Request | crates/server/src/auth.rs:29-68 | Accepts exactly on a cache hit or a verified session, caching the latter, and answers with the user and id of that cache entry or session |
| Sessions.RequestIdentity | crates/server/src/auth.rs:29-68 | In every run the user and id a request is answered with are those the exchange that made the token gave it |
| Sessions.CodesLastFiveMinutes | crates/db/src/session.rs:63-165 | An exchange finds a code only within 300 s of its issue, and for the user it was issued to |
| Sessions.NewCodeIsOpen | crates/db/src/session.rs:63-165 | A new code is found throughout those 300 s |
| Sessions.SessionsLastThreeDays | crates/db/src/session.rs:199-283 | A session verifies only within three days of being made or last verified |
| Sessions.NewSessionStands | crates/db/src/session.rs:166-283 | A new session verifies throughout those three days while its user is known |
| Sessions.UnknownUserRefused | crates/db/src/session.rs:240-283 | A token of a user the server no longer knows is refused and its session revoked |
| Sessions.AuthServer.Refresh | crates/server/src/auth.rs:369-389 | Verifies, slides, caches under the text as given, and answers with the session's user and id |
| Sessions.AuthServer.Logout | crates/server/src/auth.rs:425-429 | Drops the cache entry of the text as given and revokes the trimmed token |
| Sessions.AuthServer.LogoutAll | crates/server/src/auth.rs:430-436 | Empties the cache and revokes every session of the user |
| Sessions.AuthServer.PurgeExpiredSessions | crates/db/src/session.rs:326-338 | Deletes exactly the expired and the revoked sessions |
| Sessions.AuthServer.PurgeExpiredCodes | crates/db/src/session.rs:340-348 | Deletes exactly the expired codes |
| Sessions.AuthServer.AddUser | crates/db/src/auth.rs:44-62 | Adds the user, and says whether they are new |
| Sessions.AuthServer.RemoveUser | crates/db/src/auth.rs:64-72 | Deletes the user with their codes and sessions, and nothing else |
| Sessions.SessionsWereIssued | crates/db/src/session.rs:166-190 | In every run each session in the table belongs to a token that was handed out |
| Sessions.RunKeepsOnePerUser | crates/db/src/session.rs:89-118 | In every run a user has at most one code |
| Sessions.RunKeepsCodes | crates/db/src/session.rs:63-197 | With exchanges one at a time no code is redeemed more often than it was issued |
| Sessions.OneSessionPerCode | crates/db/src/session.rs:123-197 | Of codes issued once none makes two sessions, at any point of a run with overlapping exchanges, if and only if no exchange redeems a code between another redeeming exchange's read of it and its finish |
| Sessions.TwoSessionsFromOneCode | crates/db/src/session.rs:131-190 | Two exchanges that both read a code make two sessions |
| Sessions.StepKeepsDead | crates/db/src/session.rs:240-337 | No call revives a dead session |
| Sessions.DeadForGood | crates/db/src/session.rs:240-337 | A session once revoked, expired or purged is never verified again |
| Sessions.RevokingKills | crates/db/src/session.rs:285-308 | Each way of revoking leaves the session dead |
| Sessions.CachedAcceptance | crates/server/src/auth.rs:47-68 | Acceptance through the cache gives the identity of a session verified or created less than 60 s before |
| Sessions.RefusedSoon | crates/server/src/auth.rs:47-68 | A dead token is refused from 60 s after its death on |
| Sessions.LogoutAtOnce | crates/server/src/auth.rs:425-429 | Exactly when a logged-out token is still accepted |
| Sessions.LogoutLeavesAccess | crates/server/src/auth.rs:425-429 | In a run of three calls a token logged out with a trailing blank is accepted by the next request |

## Left out

- Network, Telegram, HTTP and WebSocket transport, file reading and the broadcast of room state: only the decisions are kept, their inputs are parameters.
- The MP4 reader and writer behind the remuxer, the ZIP writer, tagging, audio decoding and the archive hash: not part of this model.
- BoxWalk.ReadChildren: a scan reads a buffer; a seek or read error of a file in the middle of a scan is not modelled, and `usize` is taken as 64 bits wide.
- Muxed.MuxedFileScans: the boxes are written with 32-bit sizes (`Boxes.ReadHeaderExactly` reads all three forms), and a run of the shape that `Layout.RunsReadExactly` shows misread is excluded. The other lemmas about the scanner hold for arbitrary bytes.
- Remux.CheckTimeline: takes the samples as given; finding them in the sample tables and writing them out is not modelled.
- Queue.SequentialRipQueue.Submit: a locked section and the callbacks after it are one step, so a callback overtaken by another section is not modelled; panics in callbacks and the cancellation tokens of running items are left out.
- Queue.TopIsFair: the score is an unbounded integer, so the wrap of a 64-bit score after about 58 billion years of waiting is not modelled.
- Ripper.ClaimName: file-system errors other than an existing name end the source's loop with that error, and two processes creating files between tries are not modelled; the retry loop around a whole rip, which repeats the call a bounded number of times with doubling delays, makes no decision about names.
- Albums.AlbumTable.ReplaceAlbums: a replacement is one step, so an upsert between its statements, which its lock does not exclude, is not modelled; nor are row ids used up by refused statements, the order in which the finders list rows, and the file id, which no decision reads.
- Json.DecodePrinted: the reader knows flat objects of strings and 64-bit integers; nested values, booleans, null and fractions are refused where a full JSON reader accepts them.
- CaptionScan.CaptionIsFound: text before the caption that itself opens a brace is not covered, nor is text with markup around a caption that was not escaped.
- Playback.RunKeepsInv: connection ids are random 64-bit numbers in the source; two live connections with one id are not modelled.
- Sessions.AuthServer.Exchange: in runs an exchange is two steps, the read of the code and the rest, and every other call is one; the source runs its statements without transactions, so other interleavings are not modelled. The upper-casing of the code text happens before the step.
- Sessions.DeadForGood: tokens are told apart by their text, as distinct hashes tell them apart in the source.
- Stall.MonitorUpload: the callback that reports progress and the dropping of the upload future are left out.
- Progress bars, help text, spectrograms, dashboards, API documents, link parsing and settings: user interface or plumbing, without state or decisions of their own.
