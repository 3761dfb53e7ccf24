# Verified core of a retro handheld firmware

Models of the parts of the firmware that carry state or arithmetic too large for tests, one group of files per part:

- `Basics`: an optional value and a fact about products.
- `HandleModel`, `HandlePaths`, `HandleDb`, `HandleListing`, `HandleSession`: the MTP object-handle database. A plain list is the specification; the pool blocks, the newest-first links, the two bucket tables, the resumable child search, the path builder, the folder rescan and the requests of a host that list, send and delete are proved against it.
- `ScalerSpec`, `ScalerC`, `ScalerNeon`, `ScalerEffects`: the integer pixel scalers. Memory is an array of 16-bit pixels; the word loops, the NEON register programs, `memcpy_neon` and the line and grid kernels all write the same frame of replicated or shaded blocks.
- `Sound`: the audio ring as a queue, and the accumulator that converts sample rates.
- `MtpStrings`: UTF-16LE from the host to UTF-8 names and back (section 3.2.3 of the MTP Specification v1.1, sections 3 and 4 of RFC 3629).
- `VideoHandshake`, `CancelHandshake`: two thread protocols as state machines whose actions are single steps of single threads (the second after sections 5.2.1 and 5.2.4 of the USB Still Image Capture Device Definition 1.0).
- `MenuScale`, `ConfigText`, `ConfigStore`: the fixed-point picture in the menu, and the configuration file written and read back.
- `ListWindow`, `Recents`, `Quoting`: the launcher's list, its recent games, and the quoting of strings for the shell and for wpa_supplicant.

The request for a folder's handles is src/mtp_operations/mtp_op_getobjecthandles.c of uMTP-Responder, and delete_tree is in mtp_ops_helpers.c beside it; these files are not UTF-8 text, so the table names their lines in the last column and cites what they call.

Answers of the allocator, the contents of directories and files, button presses and the moments at which another thread runs are parameters. Integers are unbounded except where the program wraps (handles and the name hash).

What turned out different from what one would expect:

- Two top-level entries added with parents 0 and 0xFFFFFFFF can have the same full path, and nothing else can (`PathsDetermine`). The present callers turn 0xFFFFFFFF into 0 first (mtp.c:211-212, mtp_op_getobjecthandles.c:91-94), so it never happens in a session (`Session`).
- Threaded video can stop for good: if the core asks for the menu and then reports a repeated frame (a null pointer) in the same run, the main thread sleeps for a frame that the paused core will not produce. It also happens when the pause is stored only after the menu has been left. `PauseEndsExactly` says from which states the pause still ends.
- Leaving the menu publishes the last picture once more, so a frame can be presented twice without quitting; and if the core has changed its frame size meanwhile, what is published belongs to no frame (`PresentedInOrder`, `SpoiledExactly`).
- A request for a folder that does not exist is answered after asking the child search where an earlier request left it. That no handle follows the count of 0 rests on every request leaving nothing to find (`GetObjectHandles`, `Execute`).
- A cancelled upload can be answered with OK, and a cancel or a BUSY answer can hit the upload after the one it was meant for (`SilentExactly` and the runs beside it).
- A button that is unbound with the menu modifier comes back as R3 (`BindingBack`). A key that ends an earlier key is read from that line, unless the search skips over it, which takes a key that overlaps itself (`TailMisread`, `OverlapExample`).
- The second bound check of `Wifi_confEscape` never fires, because the loop already leaves room for an escape.

## Model

| member | source | states |
|---|---|---|
| `HandleModel.StepKeeps` | workspace/rg35xxplus/other/uMTP-Responder/src/fs_handles_db.c:297-477 | one root, add, delete or size step keeps handles increasing, parents known, live keys unique, and every entry in its place with its identity and deletion mark |
| `HandleModel.RunKeeps` | workspace/rg35xxplus/other/uMTP-Responder/src/fs_handles_db.c:297-477 | the same over every sequence of such steps |
| `HandleModel.NothingLost` | workspace/rg35xxplus/other/uMTP-Responder/src/hash_utils.c:107-159 | while buckets can grow, no entry is lost to an index, and a key is present in the name index exactly when a live entry of the list has it |
| `HandleModel.SlotsConserved` | workspace/rg35xxplus/other/uMTP-Responder/src/hash_utils.c:90-105 | every operation takes a slot or asks for a block of 1024, and no slot is lost but that of a root whose name cannot be copied |
| `HandleModel.ResolveUnique` | workspace/rg35xxplus/other/uMTP-Responder/src/fs_handles_db.c:511-528 | a nonzero handle names at most one entry of the list |
| `HandleModel.DeletedNeverResolves` | workspace/rg35xxplus/other/uMTP-Responder/src/fs_handles_db.c:511-528 | a deleted entry's handle resolves to nothing in any later state |
| `HandleModel.HandlesNeverReassigned` | workspace/rg35xxplus/other/uMTP-Responder/src/fs_handles_db.c:297-344 | every handle given out later is larger than all earlier ones, below 2^32 |
| `HandleModel.NextChild` | workspace/rg35xxplus/other/uMTP-Responder/src/fs_handles_db.c:488-509 | the newest child below a place, with none skipped |
| `HandleModel.IterationComplete` | workspace/rg35xxplus/other/uMTP-Responder/src/fs_handles_db.c:479-509 | an iteration interleaved with any additions and deletions returns each child at most once, newest first, and at its end every live child of the starting snapshot |
| `HandlePaths.ParentOlder` | workspace/rg35xxplus/other/uMTP-Responder/src/fs_handles_db.c:548-631 | a resolved parent is older than its child, which is why the walk up ends |
| `HandlePaths.RootFirst` | workspace/rg35xxplus/other/uMTP-Responder/src/fs_handles_db.c:548-631 | a path starts with its storage's root and ends with a slash and the entry's name; a top-level entry's is just these |
| `HandlePaths.PathStable` | workspace/rg35xxplus/other/uMTP-Responder/src/fs_handles_db.c:548-631 | a path depends only on the entry and its older ancestors |
| `HandlePaths.PathInjective` | workspace/rg35xxplus/other/uMTP-Responder/src/fs_handles_db.c:548-631 | two live entries of one storage with live ancestors, slash-free names and equal paths are the same entry, below one top always, below both if no name stands at both |
| `HandlePaths.PathsDetermine` | workspace/rg35xxplus/other/uMTP-Responder/src/fs_handles_db.c:548-631 | paths determine the live entries of a storage exactly when no name stands at the top level twice, with parent 0 and with parent 0xFFFFFFFF |
| `HandlePaths.OneTopNoTwins` | workspace/rg35xxplus/other/uMTP-Responder/src/fs_handles_db.c:388-407 | as long as every addition says 0 for the top level, that condition holds |
| `HandlePaths.TwinsReachable` | workspace/rg35xxplus/other/uMTP-Responder/src/fs_handles_db.c:388-407 | two additions of one name, with parents 0 and 0xFFFFFFFF, do reach two entries with one path |
| `HandlePaths.AddAllCovers` | workspace/rg35xxplus/other/uMTP-Responder/src/fs_handles_db.c:409-447 | every listed visible name has a live child after the additions |
| `HandlePaths.VisibleExactly` | workspace/rg35xxplus/other/uMTP-Responder/src/fs_handles_db.c:424-431 | the links . and .. are never listed, other names with a leading dot exactly where hidden files are shown |
| `HandlePaths.RescanExact` | workspace/rg35xxplus/other/uMTP-Responder/src/fs_handles_db.c:409-477 | the live children after a rescan are exactly the snapshot's names, surviving children keep their handles, everything else is untouched |
| `HandlePaths.RescanAsRun` | workspace/rg35xxplus/other/uMTP-Responder/src/fs_handles_db.c:409-477 | a rescan is an admissible run of additions, deletions and size updates, none of them lost to an index if every growth was granted |
| `HandlePaths.RescanKeeps` | workspace/rg35xxplus/other/uMTP-Responder/src/fs_handles_db.c:409-477 | so it keeps the invariant and the identity of every entry, and one rescan can follow another |
| `HandlePaths.RescanDetails` | workspace/rg35xxplus/other/uMTP-Responder/src/fs_handles_db.c:409-477 | a live child of a rescanned folder has the size that stat gives for its path, and a new one is a file or a folder as the listing says |
| `HandlePaths.RescanOneTop` | workspace/rg35xxplus/other/uMTP-Responder/src/fs_handles_db.c:409-477 | a rescan below 0, or below a handle, adds nothing below 0xFFFFFFFF, and uses at most one handle for each file |
| `HandleDatabase.HashFunctionName` | workspace/rg35xxplus/other/uMTP-Responder/src/hash_utils.c:72-88 | the loop computes the multiply-by-33 hash with 32-bit wrap-around |
| `HandleDatabase.InsertEntryGeneric` | workspace/rg35xxplus/other/uMTP-Responder/src/hash_utils.c:39-128 | a bucket gains the entry at its end, or refuses it exactly when a needed growth fails |
| `HandleDatabase.IndexInsert` | workspace/rg35xxplus/other/uMTP-Responder/src/hash_utils.c:107-140 | an insertion keeps the bucket table complete and correct for the longer list |
| `HandleDatabase.HandleDb.TakePoolSlot` | workspace/rg35xxplus/other/uMTP-Responder/src/hash_utils.c:90-105 | a slot is never handed out twice, across block growth |
| `HandleDatabase.HandleDb.Link` | workspace/rg35xxplus/other/uMTP-Responder/src/hash_utils.c:130-140 | list and both indexes gain the same entry; it is lost to an index only if that bucket could not grow |
| `HandleDatabase.HandleDb.AllocRootEntry` | workspace/rg35xxplus/other/uMTP-Responder/src/fs_handles_db.c:346-386 | a root is appended, with the slot kept when its name cannot be copied |
| `HandleDatabase.HandleDb.AllocEntry` | workspace/rg35xxplus/other/uMTP-Responder/src/fs_handles_db.c:297-344 | an entry with the next handle is appended; a failed name copy leaves list, indexes and next handle as before |
| `HandleDatabase.HandleDb.FindEntry` | workspace/rg35xxplus/other/uMTP-Responder/src/hash_utils.c:142-159 | the bucket scan finds an entry exactly when a live indexed entry of the list has the key |
| `HandleDatabase.HandleDb.AddEntry` | workspace/rg35xxplus/other/uMTP-Responder/src/fs_handles_db.c:388-407 | gives a live entry with the key exactly when there was one or a slot and the copy of the name were granted; an existing one is kept, any other is allocated |
| `HandleDatabase.AllowedRuns` | workspace/rg35xxplus/other/uMTP-Responder/src/fs_handles_db.c:297-477 | commands, scans included, that add only below existing parents, whatever the allocator answers, are admissible runs of the specification |
| `HandleDatabase.GenerousIndexed` | workspace/rg35xxplus/other/uMTP-Responder/src/hash_utils.c:39-128 | while growth is granted, no bucket reaches its limit for some hundred million commands and scanned files, and nothing is lost to an index |
| `HandleDatabase.HandleDb.Execute` | workspace/rg35xxplus/other/uMTP-Responder/src/fs_handles_db.c:297-477 | any sequence of roots, additions, deletions and folder scans, with any answers of the allocator, is command by command the run of the list specification with the same arguments; it keeps the invariant, and a child search that has nothing left to find stays so |
| `HandleDatabase.Serve` | workspace/rg35xxplus/other/uMTP-Responder/src/fs_handles_db.c:229-244 | from an empty database and over every sequence of such commands: a lookup by key succeeds exactly when the indexed list has a live entry with it (any live entry, if buckets could grow), and a lookup by nonzero handle gives what the list scan gives |
| `HandleDatabase.HandleDb.Browse` | workspace/rg35xxplus/other/uMTP-Responder/src/fs_handles_db.c:479-509 | a child search interleaved with additions and deletions by the class itself finds every child at most once, and at its end every live child of its start |
| `HandleDatabase.HandleDb.GetNextChildHandle` | workspace/rg35xxplus/other/uMTP-Responder/src/fs_handles_db.c:488-509 | the walk along the links is NextChild from the cursor |
| `HandleDatabase.HandleDb.GetEntryByHandle` | workspace/rg35xxplus/other/uMTP-Responder/src/fs_handles_db.c:511-528 | the bucket scan agrees with the list scan for every nonzero handle, over storages with a root path |
| `HandleDatabase.HandleDb.GetEntryByHandleAndStorage` | workspace/rg35xxplus/other/uMTP-Responder/src/fs_handles_db.c:530-546 | the list walk finds a live entry with handle and storage, or there is none |
| `HandleDatabase.HandleDb.PathLength` | workspace/rg35xxplus/other/uMTP-Responder/src/fs_handles_db.c:556-584 | the first walk counts exactly the path's characters |
| `HandleDatabase.HandleDb.BuildFullPath` | workspace/rg35xxplus/other/uMTP-Responder/src/fs_handles_db.c:548-631 | the second walk fills the buffer from its end to exactly root, path and a terminating zero |
| `HandleDatabase.HandleDb.ScanAndAddFolder` | workspace/rg35xxplus/other/uMTP-Responder/src/fs_handles_db.c:409-477 | the method is Rescan on the list with the allocator's answers, indexes included; it keeps the invariant and every identity and leaves no child search open |
| `HandleListing.ChildrenExact` | workspace/rg35xxplus/other/uMTP-Responder/src/fs_handles_db.c:488-509 | the listing holds the places of all children of the folder, newest first |
| `HandleListing.ListingFalls` | workspace/rg35xxplus/other/uMTP-Responder/src/fs_handles_db.c:488-509 | its handles fall strictly, so none is sent twice, and their number fits the 32-bit count |
| `HandleListing.FillPacket` | workspace/rg35xxplus/other/uMTP-Responder/src/fs_handles_db.c:488-509 | the inner loop of mtp_op_getobjecthandles.c:156-169 over this search: one packet takes the next handles in order until it has the packet size or all are taken, and at least one if there is any |
| `HandleListing.Send` | workspace/rg35xxplus/other/uMTP-Responder/src/fs_handles_db.c:479-509 | the loops of mtp_op_getobjecthandles.c:146-180 over this search: the packets together are the count and then all handles; every packet but the last has reached the packet size, and none exceeds it by a word |
| `HandleListing.ShortEnd` | workspace/rg35xxplus/other/uMTP-Responder/src/mtp.c:432-447 | packets but the last are exactly full, and the empty packet is sent exactly when the last is full too |
| `HandleListing.GetObjectHandles` | workspace/rg35xxplus/other/uMTP-Responder/src/fs_handles_db.c:409-509 | mtp_op_getobjecthandles.c:41-193, the caller of this scan and this search: each answer and its effect on the list. For 0 and for 0xFFFFFFFF the handles sent are those of the live entries whose parent is 0, for an entry's handle those of its children, for any other handle none and the list unchanged; nothing ever comes to stand below 0xFFFFFFFF |
| `HandleListing.ServedExact` | workspace/rg35xxplus/other/uMTP-Responder/src/fs_handles_db.c:409-509 | for the same request: if all entries can be allocated and the directory does not change meanwhile, the handles sent are those of its visible names below 0, or below the handle asked for: every name has one, nothing else has, none comes twice, and no name has two while nothing is lost to the name index |
| `HandleSession.SendObjectInfo` | workspace/rg35xxplus/other/uMTP-Responder/src/mtp.c:188-424 | each answer and its effect: the object is created below the live directory with the handle asked for, or below the storage's root for 0 and 0xFFFFFFFF, at that directory's path and its own name, and stands in the list with that name, kind, size and parent |
| `HandleSession.DeleteTree` | workspace/rg35xxplus/other/uMTP-Responder/src/fs_handles_db.c:409-528 | delete_tree (mtp_ops_helpers.c:205-254) over these: the object's entry is marked exactly if it is gone from disk; a folder of which something is left is scanned again; the answer is 0 exactly for a known object that is gone |
| `HandleSession.MountStore` | workspace/rg35xxplus/other/uMTP-Responder/src/fs_handles_db.c:346-386 | a mounted storage has a root that uploads to its top level find, and takes no handle |
| `HandleSession.Session` | workspace/rg35xxplus/other/uMTP-Responder/src/fs_handles_db.c:229-631 | over every session of mounting, listing, sending and deleting from an empty database, while handles last: the invariant holds, no search is left open, and no two live entries of a storage have one path |
| `ScalerSpec.FrameShown` | workspace/all/common/scaler.c:53-181 | lines completely written one by one make up the whole frame of blocks and nothing else |
| `ScalerSpec.FramePixel` | workspace/all/common/scaler.c:53-181 | closed form: the pixel at block column rx and row ry of source pixel (x, y) is its shade |
| `ScalerSpec.FrameReplicated` | workspace/all/common/scaler.c:53-181 | the same with pitches in bytes: every source pixel arrives at each of its byte addresses, and no pixel outside the rows changes |
| `ScalerSpec.FrameUnique` | workspace/all/common/scaler.c:188-613 | the frame determines the memory, so the C and the NEON scalers write the same pixels |
| `ScalerC.LaneMasks` | workspace/all/common/scaler.c:61-62 | on 32-bit words: both lanes of dpix1 are the low lane of the word, both of dpix2 the high lane |
| `ScalerC.TwiceLanes` | workspace/all/common/scaler.c:66-67 | pix16 or (pix16<<16), and the doubling orr of the assembly, put the pixel in both lanes |
| `ScalerC.PairPixels` | workspace/all/common/scaler.c:59-163 | the words stored for a pair are n times its first pixel and n times its second |
| `ScalerC.ScaleRow` | workspace/all/common/scaler.c:53-75 | word pairs and an odd last pixel together make one output row |
| `ScalerC.ScaleFrame` | workspace/all/common/scaler.c:53-183 | scale2x_c16 to scale6x_c16, for every width, height, pitch and row factor: exactly the replicated frame, all other pixels unchanged; in bytes, with the pitches as given, and without gaps where a pitch is 0 |
| `ScalerC.CopyFrame` | workspace/all/common/scaler.c:37-49 | scale1x_c16: the single memcpy and the row loop both write the unscaled frame, in bytes as above, with a row cut where it is wider than the destination pitch |
| `ScalerNeon.Double32` | workspace/all/common/scaler.c:270-322 | the 32-pixel register program of 2x leaves each pixel twice, registers reused in place |
| `ScalerNeon.Double16` | workspace/all/common/scaler.c:323-355 | the 16-pixel program of 2x |
| `ScalerNeon.Triple16` | workspace/all/common/scaler.c:388-421 | the 16-pixel program of 3x |
| `ScalerNeon.Quadruple16` | workspace/all/common/scaler.c:461-483 | the 16-pixel program of 4x |
| `ScalerNeon.Quintuple8` | workspace/all/common/scaler.c:511-528 | the 8-pixel program of 5x |
| `ScalerNeon.Sextuple8` | workspace/all/common/scaler.c:569-584 | the 8-pixel program of 6x |
| `ScalerNeon.SpreadOut` | workspace/all/common/scaler.c:255-613 | registers that hold each pixel n times are a correct piece of an output row |
| `ScalerNeon.ScaleBand` | workspace/all/common/scaler.c:255-502 | one source row to n output rows: full blocks, then the rest of the row |
| `ScalerNeon.MemcpyNeon` | workspace/all/common/scaler.c:188-232 | ends for every even size, 0 included, and completes the line it copies, also from an equal line of the same buffer |
| `ScalerNeon.Memcpy` | workspace/all/common/scaler.c:188-232 | between two buffers exactly the given pixels arrive and nothing else changes |
| `ScalerNeon.ScaleLine` | workspace/all/common/scaler.c:504-599 | the 5x and 6x line programs make one output row |
| `ScalerNeon.ScaleFrame` | workspace/all/common/scaler.c:255-618 | scale2x2_n16 to scale6x6_n16, with the fall-back to C for odd alignment: exactly the replicated frame, in the same bytes |
| `ScalerNeon.BothScale` | workspace/all/common/scaler.c:188-618 | run on equal memories, the NEON and the C scaler leave equal memories |
| `ScalerNeon.CopyFrame` | workspace/all/common/scaler.c:243-254 | scale1x1_n16 writes the unscaled frame, in the same bytes |
| `ScalerEffects.WeightedDarkens` | workspace/all/common/scaler.c:634-640 | the weight tables are channel*2/5, channel*3/5 and channel*3/4 for every RGB565 pixel |
| `ScalerEffects.ChannelsCompose` | workspace/all/common/scaler.c:621-625 | the channels of RGB565 are five, six and five bits and make up the pixel |
| `ScalerEffects.ShadeExactly` | workspace/all/common/scaler.c:665-809 | every channel of every pixel of a block is the source's channel times 100, 75, 60 or 40 percent, by its place in the block |
| `ScalerEffects.BlockRows` | workspace/all/common/scaler.c:665-809 | the block stored for a pixel has the effect's shade at every column and row |
| `ScalerEffects.ScaleFrame` | workspace/all/common/scaler.c:665-809 | scale2x_line to scale4x_line, scale2x_grid and scale3x_grid write exactly the shaded frame |
| `Sound.HeldPush` | workspace/all/common/snd.c:112-116 | storing at the in-index and advancing it appends to the queue the ring stands for |
| `Sound.HeldPop` | workspace/all/common/snd.c:61-72 | advancing the out-index removes the queue's first frame |
| `Sound.HeldRoom` | workspace/all/common/snd.c:155-160 | at most frame_count-1 frames are held, and the in-index meets frame_filled exactly when that many are |
| `Sound.LawNear` | workspace/all/common/snd.c:117-133 | one round of the accumulator keeps pushed*in - taken*out in [0, max(in, out)) and every pushed frame k equal to input floor(k*in/out) |
| `Sound.Context.ResizeBuffer` | workspace/all/common/snd.c:84-111 | a new empty ring, lawful from accumulator 0; a failed realloc keeps the old one and all that was counted |
| `Sound.Context.AudioCallback` | workspace/all/common/snd.c:49-83 | the oldest frames are delivered in order and the whole request is filled: silence for a whole missing period, else the samples backwards |
| `Sound.GapMirrors` | workspace/all/common/snd.c:74-82 | a gap other than a whole period mirrors what was played around its last sample, and is silent beyond |
| `Sound.WrittenFrames` | workspace/all/common/snd.c:61-64 | of every frame delivered the left sample is written first, then the right one |
| `Sound.Context.ResampleNone` | workspace/all/common/snd.c:112-116 | every frame goes in once |
| `Sound.Context.ResampleNear` | workspace/all/common/snd.c:117-133 | ring and law are kept, and each call uses up a frame or a slot |
| `Sound.Context.PushSome` | workspace/all/common/snd.c:164-173 | the inner loop ends, by frames left plus free slots, and keeps queue and law |
| `Sound.Context.Released` | workspace/all/common/snd.c:49-83 | the callbacks at a release take exactly what there is of each request, in order |
| `Sound.ServedSum` | workspace/all/common/snd.c:61-72 | together any requests take what all of them ask for, as far as it is there, and nothing else |
| `Sound.Context.WaitForRoom` | workspace/all/common/snd.c:155-160 | releases the lock while the ring is full, at most ten times, and the callbacks then take exactly what the level allows; it stops before ten only with room in the ring |
| `Sound.Context.BatchSamples` | workspace/all/common/snd.c:142-178 | the whole batch is taken, or the ring is full after every scheduled callback has run; how much is taken, held and delivered is fixed by the batch and the schedule; law and queue are kept |
| `Sound.Context.Play` | workspace/all/common/snd.c:49-178 | the same over any sequence of batches and callbacks: the events fix the input taken, the requests served and the number of frames held and delivered |
| `Sound.Session` | workspace/all/common/snd.c:180-216 | from SND_init on, over every session: the events fix how many frames are delivered, and what is delivered, and what is still queued behind it, is the batched input at the output rate, frame k being input floor(k*in/out) |
| `Sound.PlayedInput` | workspace/all/common/snd.c:142-178 | what has been batched is all the batches, up to the one at which the session stops |
| `Sound.NearestUnique` | workspace/all/common/snd.c:117-133 | that number and the input leave no choice for the frames delivered |
| `Sound.Context.DeliveredNearest` | workspace/all/common/snd.c:49-178 | the k-th frame ever delivered is input frame floor(k*in/out) |
| `MtpStrings.Utf8Exact` | workspace/rg35xxplus/other/uMTP-Responder/src/usbstring.c:162-204 | the bytes carry the code point, and are well-formed by section 4 of RFC 3629 if and only if it is at most U+10FFFF and no surrogate |
| `MtpStrings.Utf8Unique` | workspace/rg35xxplus/other/uMTP-Responder/src/usbstring.c:162-204 | no other well-formed bytes carry it |
| `MtpStrings.ShortestForm` | workspace/rg35xxplus/other/uMTP-Responder/src/usbstring.c:268-323 | no sequence that decodes is shorter than the encoding, exactly but for a single byte from 80 to BF, which is taken as it stands |
| `MtpStrings.Utf8Encode` | workspace/rg35xxplus/other/uMTP-Responder/src/usbstring.c:162-204 | writes the UTF-8 of a code point and a zero |
| `MtpStrings.Utf8Size` | workspace/rg35xxplus/other/uMTP-Responder/src/usbstring.c:252-266 | counts the leading ones of a byte, 1 for none |
| `MtpStrings.Utf2Unicode` | workspace/rg35xxplus/other/uMTP-Responder/src/usbstring.c:268-323 | decodes sequences of one to three bytes and refuses all others |
| `MtpStrings.LowByteFirst` | workspace/rg35xxplus/other/uMTP-Responder/src/usbstring.c:206-216 | every unit has its low byte first |
| `MtpStrings.DecodeUtf8` | workspace/rg35xxplus/other/uMTP-Responder/src/usbstring.c:162-323 | decoding undoes encoding for every 16-bit unit, surrogates included |
| `MtpStrings.BeyondPlaneEnds` | workspace/rg35xxplus/other/uMTP-Responder/src/usbstring.c:314-319 | a four-byte character reads as the end of the string |
| `MtpStrings.Unicode2CharString` | workspace/rg35xxplus/other/uMTP-Responder/src/usbstring.c:206-249 | as many whole characters as fit with a zero, and 1 exactly when some do not |
| `MtpStrings.Char2UnicodeString` | workspace/rg35xxplus/other/uMTP-Responder/src/usbstring.c:325-363 | the decoded units in little-endian order, the 255th as null, -1 exactly when they would reach maxsize, no write beyond |
| `MtpStrings.RunEnds` | workspace/rg35xxplus/other/uMTP-Responder/src/usbstring.c:325-363 | the units written go up to the first null, to the size given or to 255, whichever comes first |
| `MtpStrings.PokeString` | workspace/rg35xxplus/other/uMTP-Responder/src/mtp_helpers.c:160-205 | a counted string of the units before the first null, at most 254; -1 and its causes exactly; no write reaches maxsize |
| `MtpStrings.RoundTrip` | workspace/rg35xxplus/other/uMTP-Responder/src/usbstring.c:206-363 | the name made from nonzero units sends them back: whole up to 254 units, otherwise the first 254 |
| `MtpStrings.Echo` | workspace/rg35xxplus/other/uMTP-Responder/src/usbstring.c:206-363 | a name set by the host is reported with count units+1, the same units and a null, cut only between characters |
| `VideoHandshake.StepKeeps` | workspace/all/minarch/minarch.c:2705-2729 | every single step of either thread keeps mutual exclusion, the wake-up rule, the backbuffer's contents and the order of presentation |
| `VideoHandshake.RunKeeps` | workspace/all/minarch/minarch.c:2943-3070 | the same over every interleaving of a threaded session, spurious wake-ups and the menu's own publication included |
| `VideoHandshake.SleeperIsWoken` | workspace/all/minarch/minarch.c:1621-1629 | a sleeping main thread with a frame published or quit set is woken by the core's next steps |
| `VideoHandshake.QuitExactly` | workspace/all/minarch/minarch.c:1621-1629 | quit is set exactly from the first save-and-quit shortcut, leaving of the game in the menu or HDMI change on, and never cleared |
| `VideoHandshake.NoRunAfterQuit` | workspace/all/minarch/minarch.c:2943-2960 | after the shortcut the core never looks again whether to run, and after another quit once at most |
| `VideoHandshake.NothingAfterLeaving` | workspace/all/minarch/menu.c:1705-1722 | a game left in the menu, or a menu opened after quit, is not published again, and the core is not resumed |
| `VideoHandshake.QuitProgress` | workspace/all/minarch/minarch.c:3049-3070 | once quit is set every step of the main thread brings it nearer to its end, whatever the core does |
| `VideoHandshake.EndsAfterQuit` | workspace/all/minarch/minarch.c:2943-3070 | from every state of a session in which quit is set both threads can come to their ends |
| `VideoHandshake.PresentedInOrder` | workspace/all/minarch/minarch.c:3058-3068 | a presentation shows a newer frame exactly when the core had published one, otherwise the last one again, which happens only after a menu or as the very last when quitting; it is whole, or garbage from end to end if leaving a menu spoiled it |
| `VideoHandshake.NeverOlder` | workspace/all/minarch/minarch.c:3058-3068 | frame numbers never decrease |
| `VideoHandshake.SpoiledExactly` | workspace/all/minarch/menu.c:1705-1722 | in every run the picture is spoiled exactly if leaving a menu published it from a backbuffer replaced since it was last presented, and the core has published nothing since |
| `VideoHandshake.ShownSpoiledExactly` | workspace/all/minarch/minarch.c:3058-3068 | every presentation is garbage exactly if that held when it was drawn |
| `VideoHandshake.UniformNeverSpoiled` | workspace/all/minarch/minarch.c:2711-2720 | while the core keeps to one frame size, nothing is ever spoiled |
| `VideoHandshake.SizeChangeSpoils` | workspace/all/minarch/menu.c:1705-1722 | a frame size that changes while the menu is open does lead to a presentation of no frame's pixels |
| `VideoHandshake.PauseEndsExactly` | workspace/all/minarch/minarch.c:2949-2960 | a paused, idle core can be resumed, HDMI changes apart, exactly when the main thread is in the menu or has a frame to present before it looks at the menu's flag |
| `VideoHandshake.DoomedStays` | workspace/all/minarch/minarch.c:2949-2960 | otherwise that stays so through every step but an HDMI change |
| `VideoHandshake.FrozenForever` | workspace/all/minarch/minarch.c:3058-3061 | once the main thread waits for that core's frame, nothing is ever presented again |
| `VideoHandshake.DoomedOnlyIf` | workspace/all/minarch/minarch.c:1649-1657 | it takes a run that asked for the menu and published no frame after it, or a pause stored after the menu was left |
| `VideoHandshake.SilentRunFreezes` | workspace/all/minarch/minarch.c:2705-2706 | a null frame right after the menu request does freeze both threads |
| `VideoHandshake.LatePauseFreezes` | workspace/all/minarch/minarch.c:1649-1657 | so does a pause that arrives after its menu was already left |
| `CancelHandshake.StepKeeps` | workspace/rg35xxplus/other/uMTP-Responder/src/mtp_operations/mtp_op_sendobject.c:100-160 | every single read or write of either thread keeps the cancel invariant |
| `CancelHandshake.CancelRequest` | workspace/rg35xxplus/other/uMTP-Responder/src/usb_gadget.c:505-517 | a cancel request sets cancel_req to 2 during a transfer and resets it otherwise |
| `CancelHandshake.SuspendRequest` | workspace/rg35xxplus/other/uMTP-Responder/src/usb_gadget.c:677-714 | a suspend does so during a transfer, and nothing otherwise |
| `CancelHandshake.StatusRequest` | workspace/rg35xxplus/other/uMTP-Responder/src/usb_gadget.c:536-560 | a status request is answered BUSY for a cancel not yet answered, which becomes 1, and OK otherwise, with a reset if no transfer runs |
| `CancelHandshake.AllTaken` | workspace/rg35xxplus/other/uMTP-Responder/src/mtp_operations/mtp_op_sendobject.c:100-160 | in every interleaving every packet that has arrived is written, but the one just read, and a transfer leaves its loop without a store or a leftover only behind its last packet |
| `CancelHandshake.ReadsOnExactly` | workspace/rg35xxplus/other/uMTP-Responder/src/mtp_operations/mtp_op_sendobject.c:131-145 | behind its last packet the loop ends; behind any other it reads on exactly if cancel_req has not been stored and what was left over has been reset |
| `CancelHandshake.BothAdvance` | workspace/rg35xxplus/other/uMTP-Responder/src/mtp_operations/mtp_op_sendobject.c:100-160 | neither thread waits for the other: its own steps bring each to its next packet or request, and no other step takes it back |
| `CancelHandshake.CancelSeen` | workspace/rg35xxplus/other/uMTP-Responder/src/mtp_operations/mtp_op_sendobject.c:131-160 | while a transfer runs cancel_req is set exactly when stored, or left over and not reset; a leftover allows the first packet only |
| `CancelHandshake.CancelStops` | workspace/rg35xxplus/other/uMTP-Responder/src/mtp_operations/mtp_op_sendobject.c:131-160 | in every interleaving at most one packet follows any store that makes cancel_req nonzero during a transfer |
| `CancelHandshake.SilentExactly` | workspace/rg35xxplus/other/uMTP-Responder/src/mtp_operations/mtp_op_sendobject.c:148-160 | a transfer is left unanswered exactly when cancel_req was stored during it, left over and not reset, or stored between its end and its last look, and no reset ran in that gap |
| `CancelHandshake.CancelledAnsweredOk` | workspace/rg35xxplus/other/uMTP-Responder/src/usb_gadget.c:540-548 | the reset in the gap is real: a status poll there makes a cancelled transfer end with OK |
| `CancelHandshake.StaleCancelStopsNext` | workspace/rg35xxplus/other/uMTP-Responder/src/usb_gadget.c:505-517 | the leftover is real: a cancel stored after the transfer it saw has ended cuts the next one short |
| `CancelHandshake.StaleBusyStopsNext` | workspace/rg35xxplus/other/uMTP-Responder/src/usb_gadget.c:550-562 | a store that is no cancel is real: a BUSY answer begun in one transfer stops the next |
| `CancelHandshake.LateCancelSilences` | workspace/rg35xxplus/other/uMTP-Responder/src/usb_gadget.c:505-517 | the store in the gap is real: it silences a transfer that had come to its end |
| `CancelHandshake.TwoPollsSettle` | workspace/rg35xxplus/other/uMTP-Responder/src/usb_gadget.c:536-560 | after a transfer and without new cancels two status polls leave cancel_req 0 with at most one BUSY |
| `CancelHandshake.UndisturbedAnswered` | workspace/rg35xxplus/other/uMTP-Responder/src/mtp_operations/mtp_op_sendobject.c:100-160 | a transfer begun after that, with no cancel during it, is always answered, and then every packet up to its last has been taken and written |
| `MenuScale.PickInside` | workspace/all/minarch/menu.c:995-1019 | every source coordinate stays below src_x+sw and src_y+sh |
| `MenuScale.PickNearExact` | workspace/all/minarch/menu.c:996-997 | the 16.16 coordinate is floor(k*n/r) or one less, up to 65536 destination pixels |
| `MenuScale.Scale` | workspace/all/minarch/menu.c:995-1024 | incremental stepping with whole-row reuse samples every rectangle pixel directly; margins are those of the row a row was copied from; nothing else changes |
| `MenuScale.ClearedPicture` | workspace/all/minarch/menu.c:995-1024 | on a cleared destination the picture is direct sampling in the rectangle and zero around it |
| `MenuScale.NearestPixel` | workspace/all/minarch/menu.c:995-1024 | every pixel of the rectangle is the source pixel at floor(k*n/r) of its place, or one less, in both directions |
| `ConfigText.GetValue` | workspace/all/minarch/minarch.c:862-880 | the loop is the scan for the key followed by " = " and takes the rest of that line, at most 255 characters; the lock is set exactly when a visited occurrence has a dash before it |
| `ConfigText.NoLock` | workspace/all/minarch/minarch.c:862-868 | an unshadowed line whose key has no dashed occurrence before it sets no lock |
| `ConfigText.DashLocks` | workspace/all/minarch/minarch.c:862-865 | a dash in front of the key's own line, or of its first occurrence, sets the lock |
| `ConfigText.ScanStops` | workspace/all/minarch/minarch.c:862-868 | the scan stops at a line exactly when it finds nothing in the text before it, and otherwise where it does in that text |
| `ConfigText.ValueBack` | workspace/all/minarch/minarch.c:872-876 | a value is read back exactly when it is shorter than 255 characters, or has 255 and no carriage return |
| `ConfigText.LineScanned` | workspace/all/minarch/minarch.c:862-868 | a key is looked up on its own line exactly when the search finds nothing in the lines before it |
| `ConfigText.ReachedExactly` | workspace/all/minarch/minarch.c:862-868 | it is if no earlier line contains the key followed by " = ", and for a key that does not overlap itself only then |
| `ConfigText.TailMisread` | workspace/all/minarch/minarch.c:862-868 | a key that is the tail of an earlier key and does not overlap itself is read from another line |
| `ConfigText.LineBack` | workspace/all/minarch/minarch.c:862-880 | a line that is reached gives back its value exactly when it fits |
| `ConfigStore.LabelIdBack` | workspace/all/minarch/minarch.c:1063-1068 | the search over the button labels finds the one that was written |
| `ConfigStore.BindingBack` | workspace/all/minarch/minarch.c:1214-1225 | a binding comes back exactly when it is not unbound with mod set, which comes back as R3 |
| `ConfigStore.NotedBinding` | workspace/all/minarch/minarch.c:1055-1078 | a control's label with a note behind a colon, as default.cfg has it, is read as that label, and as none for a shortcut |
| `ConfigStore.IndexBack` | workspace/all/minarch/minarch.c:1309-1315 | an option index is found again exactly when no earlier value is equal |
| `ConfigStore.UnknownIndex` | workspace/all/minarch/minarch.c:1309-1315 | a value that is not offered selects the first one |
| `ConfigStore.KeysDiffer` | workspace/all/minarch/minarch.c:1022-1045 | an option whose line is reached is the first with its key, so the key reaches it |
| `ConfigStore.Config.Write` | workspace/all/minarch/minarch.c:1189-1229 | the text is the lines of all options and bindings in order |
| `ConfigStore.Config.Read` | workspace/all/minarch/minarch.c:1022-1107 | each option and binding becomes what its key's line says, or stays |
| `ConfigStore.Config.Reload` | workspace/all/minarch/minarch.c:1022-1229 | line by line, whatever the other lines are: where the line is reached and its value fits, writing and reading restores the option exactly if no earlier value is equal, and the binding exactly if it is not unbound with mod |
| `ConfigStore.TailExample` | workspace/all/minarch/minarch.c:862-868 | the key b after the key ab is read from the line of ab |
| `ConfigStore.OverlapExample` | workspace/all/minarch/minarch.c:862-868 | the key aa after the key aaa is not: the search skips over it |
| `ListWindow.RunLetters` | workspace/all/minui/minui.c:193-201 | two entries are in one run exactly if the letter stays the same from the one to the other |
| `ListWindow.RunStartIsFirst` | workspace/all/minui/minui.c:193-201 | an index entry is the first of its run |
| `ListWindow.IndexCharExactly` | workspace/all/minui/minui.c:84-89 | the index character is the letter's number in the alphabet in either case, 0 for anything else |
| `ListWindow.AlphasIncrease` | workspace/all/minui/minui.c:193-201 | the index is strictly increasing |
| `ListWindow.Directory.Index` | workspace/all/minui/minui.c:158-204 | the index lists the starts of the first 27 runs, and every entry knows its run, or 27 beyond |
| `ListWindow.Directory.PushAlpha` | workspace/all/minui/collections.c:95-98 | a full index takes no more |
| `ListWindow.Directory.Up` | workspace/all/minui/minui.c:1484-1500 | one row up, wrapping only on a fresh press; the window follows only as far as it must and stays as full as the list allows |
| `ListWindow.Directory.Down` | workspace/all/minui/minui.c:1501-1518 | one row down, likewise |
| `ListWindow.Directory.Left` | workspace/all/minui/minui.c:1519-1531 | a page back, stopping at the first entry |
| `ListWindow.Directory.Right` | workspace/all/minui/minui.c:1532-1545 | a page forward, stopping at the last entry |
| `ListWindow.Directory.PreviousAlpha` | workspace/all/minui/minui.c:1548-1560 | lands on the first entry of the run before, or of run 26 from beyond the index |
| `ListWindow.Directory.NextAlpha` | workspace/all/minui/minui.c:1561-1573 | lands on the first entry of the run after, exactly while the index has it |
| `ListWindow.Directory.HandleInput` | workspace/all/minui/minui.c:1466-1578 | a frame of input moves the selection by row, then page, then letter, exactly as the single moves do, and keeps it on screen |
| `ListWindow.Directory.Navigate` | workspace/all/minui/minui.c:1466-1578 | over every run of inputs: each window follows from the one before by the row, page and letter moves of its input, and in each 0 <= start <= selected < end <= total and end-start = min(total, rows) |
| `Recents.AddedRecent` | workspace/all/minui/minui.c:341-358 | opening a game keeps the list the 24 most recently opened, latest first, none twice |
| `Recents.MostRecentUnique` | workspace/all/minui/minui.c:341-358 | that description leaves no choice: the history determines the listed paths |
| `Recents.RecentArray.Push` | workspace/all/minui/collections.c:17-25 | appends, doubling the storage when full; the allocation succeeds |
| `Recents.RecentArray.Unshift` | workspace/all/minui/collections.c:26-33 | prepends by shifting every item up |
| `Recents.RecentArray.Pop` | workspace/all/minui/collections.c:34-37 | removes the last item, or gives null |
| `Recents.RecentArray.Bump` | workspace/all/minui/minui.c:350-356 | the swaps bring one entry to the front and keep the order of the others |
| `Recents.RecentArray.AddRecent` | workspace/all/minui/minui.c:341-358 | the opened path in front of the list without it, cut to 24; over any history the list is the most recent games |
| `Quoting.QuotedReads` | workspace/all/minui/minui.c:842-862 | a single-quoted escaped text is one shell word and reads as the text up to where it was cut |
| `Quoting.QuoteEndsWord` | workspace/all/wifi/wifi.c:180-191 | an unescaped quote would end the word early |
| `Quoting.EscapeSingleQuotes` | workspace/all/minui/minui.c:842-862 | whole escapes only, as many as fit, zero-terminated; between quotes it reads as a prefix of the source |
| `Quoting.ShellQuote` | workspace/all/wifi/wifi.c:180-191 | one shell word that reads as the input, whole whenever the buffer exceeds four times its length plus three |
| `Quoting.ConfReads` | workspace/all/wifi/wifi.c:166-176 | the escaped value reads as the text without line breaks and never ends early |
| `Quoting.BreakEndsValue` | workspace/all/wifi/wifi.c:166-176 | an unescaped double quote or line break would end the value early |
| `Quoting.ConfEscape` | workspace/all/wifi/wifi.c:166-176 | zero-terminated, without any line break, and lossless but for these whenever the buffer exceeds twice the length |
| `Quoting.OneLineKeeps` | workspace/all/wifi/wifi.c:166-176 | of the other characters none is lost |
| `Quoting.QuoteCredentials` | workspace/all/wifi/wifi.c:199-226 | SSIDs up to 32 and passwords up to 127 bytes survive all four buffers |

## Left out

- Watch descriptors, open files, reading and writing file contents, renaming and unmounting in the handle database; names, parents and storages are taken as fixed after insertion, and a parent is 0, 0xFFFFFFFF or a handle already given out.
- HandleDatabase.HandleDb.Browse: scans between two steps of a listing are left out; a scan uses the same search and ends it, and the program holds a mutex from the scan to the last handle sent.
- HandleListing.GetObjectHandles: a write buffer no larger than a packet, a path buffer that cannot be allocated, a session that is not open, and the watch on the folder are left out; the packet size is not 0, and packets are framed as stated from 17 bytes on.
- HandleSession.Session: entries that the inotify thread adds or marks are left out; it names parents by the handles of their entries. Parsing the dataset that comes with an object, and permissions, are parameters.
- Handles after the 32-bit counter has reached 0xFFFFFFFF, and the exhaustion of memory for the path buffer.
- HandleDatabase.HandleDb.AllocEntry: a bucket that cannot grow loses the entry to that index, as in the program; agreement with the list is stated for the entries that were not lost, and NothingLost says when that is all of them.
- scale1x_line, whose later row copies overwrite the rows it shades, and scalers with an odd number of bytes per row.
- ScalerNeon.ScaleFrame: register programs are modelled on lanes, not on addresses and flags; alignment appears only in the choice between NEON and C.
- Sound.Context.BatchSamples: a batch whose ring stays full for ever is modelled up to the end of the given schedule, where the program would go on waiting; choosing the buffer size in floating point, opening and closing the device are not modelled.
- Sound.Context.ResizeBuffer: one step; frame_count is stored before the lock is taken, but the only call (snd.c:212) comes before the device is unpaused (snd.c:214), so no callback can run in between.
- utf8_to_utf16le and the descriptor strings, poke_array and the fixed-width peek and poke functions.
- MtpStrings.Char2UnicodeString: bytes behind the terminator of a malformed name are read as 0; the program reads whatever is there, without using it.
- Switching threaded video on and off while it runs, fast-forward, and the pixel work of presenting; a frame's dimensions are one size.
- The floating-point choice of the menu picture's rectangle, and the rest of the menu.
- Storing the lock flag in the option, the gamepad type line when reading, comments, and choosing the configuration file.
- Sorting and renaming of entries by map.txt, duplicate names, restoring a saved window, a row count that changes while a list is open, and the letter keys on an empty list.
- Recents.RecentArray.Push: a refused realloc is left out; the program would then keep the doubled capacity with the old storage.
- Saving recent games to their file and resolving them to entries.
- Drawing, fonts, input devices, power, Wi-Fi connection and every foreign library: interfaces and devices.
