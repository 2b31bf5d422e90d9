# A verified model of a Steam depot downloader

This project models, in Dafny, the stateful and byte-level core of a Steam depot downloader and proves what that core
guarantees: in every interleaving of its tasks, stopped at any point, over arbitrary prior disk contents, and on every input of
its parsers. `dafny verify dfyconfig.toml` checks all of it.

## What is modelled

| files | subject |
|---|---|
| `Base`, `Files`, `LittleEndian`, `NullStrings`, `Whitespace`, `Repeated` | byte strings, positioned reads and writes, integer codecs, shared parsing |
| `Checksum`, `Chunks`, `Retry` | the deferred-modulo checksum, the chunk gate and verification loops, the fetch loop with back-off |
| `FileProtocol`, `FileTheorems`, `FileContent`, `FileFailures`, `FileRetries`, `FileOrigins` | one `download_file` with its chunk tasks as a step machine: resume, delta copy, permit, retry, lock, seek, write, rename; and where each byte it installs comes from |
| `Depot`, `DepotInvariant`, `DepotTheorems`, `DepotEvents`, `DepotRemovals`, `DepotRuns`, `DepotProgress` | a whole download: the coordinating loop and all file tasks over one file system and one semaphore; safety, events, removals, refinement of each file's machine, and freedom from deadlock |
| `Convergence`, `ConvergenceContent` | repeated runs toward one manifest and the record of what is installed, up to checksums and down to the bytes |
| `Messages`, `Framing`, `SessionCipher`, `WireStack`, `WireLayout` | message headers, frames and the TCP transport, the session cipher, the layers composed, and every field at its byte offset |
| `Multi`, `Pump`, `Bundles`, `Callers`, `CallersAlone`, `CallersFate` | bundled messages, the receive loops of a single reader, several callers sharing one client, and when one of them loses its response |
| `KeyValues`, `KvText`, `KvBinary`, `KvLayout`, `KvTextTruncated`, `KvBinaryTruncated` | KeyValue trees, both of their formats, type bytes, escapes and errors spelled out, and the truncations each parser accepts |
| `Manifests`, `ManifestSections`, `ManifestLayout`, `Filenames`, `FilenameCipher`, `ManifestCache` | both manifest formats, read off the bytes field by field, file name decryption, the cache and the install record under torn writes |

Loops and objects that update state are methods and classes, each proved against a specification function; the lemmas are about
those functions. Where a specification function only computes, a lemma says what it computes in the terms of the format or of the
manifests' own fields, with offsets, constants and bits written out (`Layout`, `InFields` and `Exactly` in its name). Concurrency
is a step relation: a run is any sequence of enabled steps, so a theorem about all runs covers every interleaving, every failure
and a crash after any step.

## Hypotheses and where the code needs them

- **Distinct chunk ids, complete chunk records, a faithful old file.** `download_file` does not check them. The exact condition
  under which its Ok means a verified file is `FileTheorems.Sound`, decided by the disk before the task starts;
  `FileTheorems.InstallCorrect` is an equivalence, `FaithfulIsSound` derives the condition from these hypotheses, and
  `FileFailures` builds runs to Ok over bad bytes when a hypothesis fails: valid chunks are kept by id and not by index
  (`download.rs:366-375`, `475`), and a chunk whose id the old manifest has is skipped without asking whether its copy took place
  or was right (`download.rs:480-485`).
- **Layout.** Chunks lie inside the file and do not overlap; schedule independence and the byte-level conclusions also
  need them to cover it. Names in a manifest are distinct and none lies under `.staging`.
- **One target.** Convergence is about runs toward the same manifest; `Convergence.OkReachesExactly` says what Ok means over any
  tree, and `RetargetedRunIsRecorded` what another target in between can cost. Equal content hashes and equal chunk ids are taken
  to mean equal bytes among the two manifests at hand. A filtered run is recorded too (`main.rs:779`, `791`):
  `Convergence.OkReachesIff` says exactly when such a record is right, and `FilteredRunIsRecorded` builds one that is not.
- **Plain names.** The manifests of a download have names that are not encrypted; a cached previous manifest is never decrypted
  (`main.rs:755-757`).
- **One reader.** A service call gets its response for certain only if no other user of the client can take it: a response taken by
  another call goes to the event channel, one taken by `recv_msg` to the application. `CallersFate.KeptIffNoTaker` gives the exact
  condition, `Callers.StolenResponse` a concrete run.
- **Primitives.** The block cipher is a permutation on 16-byte blocks; protobuf decoding inverts encoding; a string read back from
  its UTF-8 encoding is the string. No hash or checksum is taken to be injective: where it matters, a lemma
  excludes a collision among the bytes its runs meet (`ConvergenceContent.AtHand` and `Exact`, `ManifestCache.NoCollision`).

## Where code and documentation disagree

The model follows the code.

- `download_file` is documented as verifying existing files in verify mode (`download.rs:346-347`); it does so always.
- `parse_v4` is documented as ending in a marker that must match (`manifest.rs:133-134`); the marker is never read, and the last
  record may run past the declared size.
- Children are documented as ending at a terminator (`key_value.rs:203`); both KeyValue parsers also accept the end of the input
  there; `KvBinaryTruncated.TruncationExact` and `KvTextTruncated.TruncationExact` say which truncated inputs
  that lets through. The declared error for a missing open brace (`key_value.rs:256-257`) is never produced: the code reports the
  end of input.
- `parse_packet_header` knows a 36-byte header, while `parse_incoming` cuts every message that is not protobuf after 20 bytes
  (`Messages.ExtendedIncoming`, `BodiesAgree`).

## Model

| member | source | states |
|---|---|---|
| FileProtocol.DeltaCopy | crates/steam-client/src/download.rs:414-461 | the copy loop over the old file, seek by seek: staging ends as the fold of the chunks whose id the old list has, in range; a short old file leaves its chunk as it was |
| Files.ReadExactly | crates/steam-client/src/download.rs:430-447 | a positioned read gives the bytes from the offset on, and fails exactly past the end |
| Files.WriteExactly | crates/steam-client/src/download.rs:449-456 | a positioned write changes the bytes it covers and no others, and lengthens the file as far as it reaches, with zeros before it |
| FileProtocol.InvInit | crates/steam-client/src/download.rs:348-357 | a fresh task satisfies the invariant whatever staging and the installed file hold |
| FileProtocol.InvOpening | crates/steam-client/src/download.rs:359-410 | checking the installed file, resuming or truncating staging, and failing keep the invariant |
| FileProtocol.InvCopy | crates/steam-client/src/download.rs:414-461 | each delta copy keeps the invariant |
| FileProtocol.InvSpawn | crates/steam-client/src/download.rs:465-487 | spawning, or skipping a chunk for any of the three reasons, keeps the invariant |
| FileProtocol.InvChunkStep | crates/steam-client/src/download.rs:493-538 | a chunk task taking its permit, fetching, passing the gate, taking the lock or seeking keeps the invariant |
| FileProtocol.ChunkStepEffect | crates/steam-client/src/download.rs:493-552 | such a step touches one chunk state and no byte of any file, and never changes data already gated |
| FileProtocol.LockStep | crates/steam-client/src/download.rs:538-540 | at most one task holds the handle lock, and its cursor is its own chunk offset between seek and write |
| FileProtocol.ContentsWrite | crates/steam-client/src/download.rs:535-541 | a write, whole or cut short, changes only its own chunk range of staging |
| FileProtocol.InvWriteStep | crates/steam-client/src/download.rs:538-540 | a locked write, or one abandoned half way, keeps the invariant |
| FileProtocol.InvAwait | crates/steam-client/src/download.rs:558-567 | awaiting the tasks and renaming keeps the invariant: what is renamed is the base overlaid with the landed chunks |
| FileProtocol.InvStep | crates/steam-client/src/download.rs:348-568 | every step of every interleaving keeps the invariant |
| FileProtocol.AnythingMayFail | crates/steam-client/src/download.rs:348-568 | nothing the model could fail at is left out: the task may fail until it has returned, a chunk task from its spawn to its end, a fetch with an error or any bytes, a write after any part of its data |
| FileTheorems.RunInv | crates/steam-client/src/download.rs:348-568 | so every run, stopped anywhere, satisfies it |
| FileTheorems.BasePart | crates/steam-client/src/download.rs:368-461 | before any fetch each chunk range of staging is the old file's bytes if copied, else what resuming or truncating left there |
| FileTheorems.InstallCorrect | crates/steam-client/src/download.rs:348-568 | a run that returns Ok leaves a file that verifies if and only if every chunk that is not fetched is already good in its source (resumed, copied) and every chunk that is fetched is complete; any interleaving, any staging bytes |
| FileOrigins.InstalledFrom | crates/steam-client/src/download.rs:348-568 | on Ok, in the manifests' fields and byte by byte: a file that verified is untouched; a staging file all of whose chunks are good is moved; else each chunk is what a fetch of it delivered if its id is kept from no good staged chunk and offered by no old chunk, else the old file's bytes where the first old chunk with its id lies, if they are there, else what staging had, or zeros |
| FileOrigins.StagingOpened | crates/steam-client/src/download.rs:381-410 | staging is opened with its own bytes if they are as many as the manifest says, else with as many zeros |
| FileRetries.RetriesExactly | crates/steam-client/src/download.rs:496-526 | over any run: a chunk task that has its permit is fetching, and may succeed, exactly while fewer than the maximum of its fetches have failed and none has answered; it is broken exactly when that many have failed, when its data was rejected, or when another error stopped it |
| FileRetries.DataIsFetched | crates/steam-client/src/download.rs:524-541 | the data a chunk task holds or has written is what its last fetch answered, decrypted, decompressed and checked, after failures only |
| FileRetries.MachineRetries | crates/steam-client/src/download.rs:496-523 | whatever further answers would have come, the retry loop run on them ends as the chunk task of the machine did, for 1 to 33 attempts |
| FileTheorems.FaithfulIsSound | crates/steam-client/src/download.rs:366-375 | that condition follows from complete chunk records, distinct ids and an old file that matches the old manifest |
| FileTheorems.CrashAtomic | crates/steam-client/src/download.rs:359-410 | stopped anywhere, the installed path is exactly its old bytes or verifies |
| FileTheorems.SecondRunIdle | crates/steam-client/src/download.rs:359-363 | on a file that already verifies, no step of any run fetches or writes |
| FileTheorems.HandleIsolation | crates/steam-client/src/download.rs:533-541 | at every write the writer alone holds the lock, its cursor is its offset, and the write changes that chunk range and no other |
| FileTheorems.TornWrite | crates/steam-client/src/download.rs:538-541 | a write that fails leaves some first part of the chunk data in its place and every other byte as it was |
| FileTheorems.ScheduleIndependent | crates/steam-client/src/download.rs:487-565 | two schedules that fetch the same data install the same bytes |
| FileFailures.NothingToFetchInstalls | crates/steam-client/src/download.rs:465-485 | with every chunk skipped there is a run to Ok that installs resumed and copied bytes unchecked |
| FileFailures.StaleOldFileIsInstalled | crates/steam-client/src/download.rs:480-485 | a stale old file whose chunk id matches is installed as Ok and does not verify |
| FileFailures.RepeatedIdIsSkipped | crates/steam-client/src/download.rs:475-477 | a repeated chunk id, good at one offset only, leaves the other unfilled in an installed file |
| DepotInvariant.ScanInv | crates/steam-client/src/download.rs:176-289 | scanning one entry keeps the whole-tree invariant |
| DepotInvariant.StepInv | crates/steam-client/src/download.rs:487-565 | so does any step of any file task among all the others |
| DepotInvariant.AwaitInv | crates/steam-client/src/download.rs:291-302 | so does awaiting a file |
| DepotInvariant.DeleteInv | crates/steam-client/src/download.rs:304-336 | so does deleting an obsolete file, or failing to |
| DepotInvariant.ExecInv | crates/steam-client/src/download.rs:170-339 | every reachable state of a download satisfies it |
| DepotTheorems.TreeCrashAtomic | crates/steam-client/src/download.rs:170-339 | in every reachable state each path outside staging has its old content, or verifies as a new entry, or is an obsolete file deleted after everything was installed |
| DepotTheorems.UnfinishedLeavesFinal | crates/steam-client/src/download.rs:348-568 | a file task that has not returned Ok (running, failed or never started) has not touched its final path |
| DepotTheorems.FailurePreventsDeletion | crates/steam-client/src/download.rs:291-293 | once a file failed the download neither deletes nor succeeds, and every obsolete file is as it was |
| DepotTheorems.PermitsConserved | crates/steam-client/src/download.rs:494-494 | free permits and permit holders over all files always add up to the configured number |
| DepotTheorems.DownloadOk | crates/steam-client/src/download.rs:170-339 | on Ok a selected entry whose hash is unchanged and whose file is there is untouched, and any other verifies exactly if its start was sound; the file of an old entry whose directory bit (0x40) is clear and whose name no new entry has is gone exactly if it was never there or its removal succeeded, and one that is left met a failed removal; nothing else outside .staging/ is gone, all other paths are untouched |
| DepotRemovals.KeptExactly | crates/steam-client/src/download.rs:325-333 | what counts as kept is exactly what a failed removal met |
| DepotRemovals.GoneExactly | crates/steam-client/src/download.rs:312-336 | in every reachable state an obsolete file is gone exactly if it was never there or a removal of it, tried at an old entry of that name with the directory bit clear and no new entry of the name, succeeded |
| DepotRemovals.OldOnlyIs | crates/steam-client/src/download.rs:304-322 | the obsolete files of the other theorems are exactly those, in the manifests' fields |
| DepotRemovals.DistinctNamesIs | crates/steam-client/src/download.rs:200-214 | the condition on names the theorems assume, in the manifests' fields |
| DepotRuns.EntryRun | crates/steam-client/src/download.rs:170-339 | refinement: seen from one file, every interleaving of a whole download is a run of the single-file machine from the disk the download found, so every theorem about that machine holds of each file |
| DepotRuns.EntryInstalled | crates/steam-client/src/download.rs:200-289 | on Ok, for a wanted entry with the directory bit clear, in the manifests' fields: it is left alone if its hash is that of the first old entry of its name and its file is there; else it ends as checked, resumed, copied from that old entry's chunks, or fetched, chunk by chunk |
| DepotRuns.EntryIgnored | crates/steam-client/src/download.rs:206-230 | an entry that is filtered out or a directory is never touched, final path or staging |
| DepotTheorems.VerifiedTreeIsLeftAlone | crates/steam-client/src/download.rs:359-363 | over a tree that verifies no chunk task is ever spawned and nothing but obsolete files changes |
| DepotEvents.EventsInOrder | crates/steam-client/src/download.rs:176-302 | each named entry announces exactly one Skipped or Started, in manifest order; progress counts strictly increase and never exceed the number of named entries |
| DepotEvents.AnnouncedExactly | crates/steam-client/src/download.rs:176-268 | an entry is announced as Started if and only if it is selected and not skipped for an unchanged hash, which is when its task is spawned; every other named entry as Skipped |
| DepotEvents.LastProgressIsTotal | crates/steam-client/src/download.rs:291-302 | on Ok the last progress count emitted is the number of named entries if and only if some file was spawned, or the last named entry is a directory the filter lets through |
| DepotProgress.HolderGetsOn | crates/steam-client/src/download.rs:494-552 | a chunk task that holds a permit can move, or the holder of the file lock it waits for can, and gets its file nearer its end |
| DepotProgress.NoDeadlock | crates/steam-client/src/download.rs:465-568 | in every reachable state, whatever has failed, with a permit and an attempt to have, some move other than a failure is possible until the download returns: semaphore and file locks cannot deadlock |
| DepotProgress.RunsAreBounded | crates/steam-client/src/download.rs:170-568 | no run is longer than a bound computed from the manifests and the settings, whatever the schedule and whatever fails |
| DepotProgress.StuckIsReturned | crates/steam-client/src/download.rs:170-568 | so a run kept going while something other than a failure is possible ends with the download returned |
| DepotProgress.SomeScheduleSucceeds | crates/steam-client/src/download.rs:170-568 | from every reachable state without a failure, whose responses decode, some schedule goes on to return Ok |
| Convergence.RunKeepsUnderway | crates/depotdownloader/src/main.rs:745-794 | one run, cut off anywhere, leaves each target verifying or exactly as it was |
| Convergence.OkReachesIff | crates/depotdownloader/src/main.rs:784-794 | a run that returns Ok, and may record its manifest, leaves every target verifying if and only if those its filter kept out verified before |
| Convergence.OkReachesExactly | crates/steam-client/src/download.rs:231-247 | over any tree: after Ok a target that was filtered out or skipped for an unchanged hash verifies exactly if it did before, any other exactly if its start was sound |
| Convergence.RunInstalls | crates/depotdownloader/src/main.rs:745-786 | what a run that returns Ok installs under a wanted name, in the manifests' fields: the old manifest is used exactly if its id is on record, is not the one aimed at, and it is in the cache |
| Convergence.OnlyUpToDateIdles | crates/depotdownloader/src/main.rs:749-753 | a run does nothing exactly if the id aimed at is on record and no verification is asked for |
| Convergence.RetargetedRunIsRecorded | crates/depotdownloader/src/main.rs:748-757 | a file left by a run toward a third manifest, with its hash equal in the recorded and the new one, is skipped: some unfiltered run returns Ok over it and is recorded, and the file still does not verify |
| Convergence.FilteredRunIsRecorded | crates/depotdownloader/src/main.rs:779-794 | over any tree with a target that does not verify there is a filtered run that returns Ok, is recorded, leaves that target as it is, and makes every later run without verify take the tree for up to date |
| Convergence.Converges | crates/depotdownloader/src/main.rs:745-794 | over any number of runs toward one manifest, filtered or not, each cut off or failing anywhere, as long as filtered runs that return Ok kept out only targets that verify: the manifest is recorded only after an Ok, once a run returned Ok every target verifies for ever after, and a recorded manifest means the targets verify |
| Convergence.InstalledOldIsUnderway | crates/depotdownloader/src/main.rs:755-757 | a correctly installed old manifest is a valid start |
| ConvergenceContent.RunKeepsExact | crates/steam-client/src/download.rs:170-568 | whatever one run does and wherever it stops, a target that verifies after it holds exactly its published bytes, if no byte string the run meets collides with them |
| ConvergenceContent.ConvergesToContent | crates/depotdownloader/src/main.rs:745-794 | over any number of such runs, after an Ok and whenever the manifest is recorded, every named non-directory file holds exactly its published bytes |
| FileContent.DeliveredStep | crates/steam-client/src/download.rs:493-552 | every step keeps the data in the chunk tasks the published data, if the responses accepted are |
| FileContent.SkippedIsGenuine | crates/steam-client/src/download.rs:465-485 | a chunk that is not fetched lies in staging with its published bytes before any fetch, resumed or copied |
| FileContent.InstalledContent | crates/steam-client/src/download.rs:348-568 | Ok then installs exactly the published file |
| Retry.FetchWithRetry | crates/steam-client/src/download.rs:496-523 | returns the first success, calls at most the configured number of times, fails exactly when all attempts fail and the number is 1 to 33, panics exactly when it is 0 or more than 33 with the first 33 failing |
| Retry.EndsOneWay | crates/steam-client/src/download.rs:496-523 | the answers of the fetches determine the outcome and the number of calls |
| Retry.BackoffTotal | crates/steam-client/src/download.rs:506-513 | k failures sleep the initial delay times 2^k - 1 in all |
| Chunks.DetectExact | crates/steam/src/depot/chunk.rs:22-36 | each format is detected exactly by its magic; the magics exclude one another |
| Chunks.GateIsVerification | crates/steam/src/depot/chunk.rs:45-70 | a response is accepted if and only if its data has the chunk size and, written into any file with room for the chunk, makes the chunk verify there: the gate on fetching and the verification of files agree |
| Chunks.ProcessExactly | crates/steam/src/depot/chunk.rs:45-89 | which decompressor a chunk's first bytes select, and for each of the four errors exactly when it is returned |
| Chunks.VerifiesExactly | crates/steam-client/src/download.rs:599-648 | a file verifies exactly if it is there, has the manifest's size, and at each chunk's offset as many bytes as the chunk has with its checksum |
| Chunks.VerifyChunks | crates/steam-client/src/download.rs:612-648 | the indices returned are exactly the chunks that do not verify, in order |
| Chunks.FileHasValidChunks | crates/steam-client/src/download.rs:599-609 | true exactly when the file exists, has the size and every chunk verifies; the file is not changed |
| Chunks.FullResumeExact | crates/steam-client/src/download.rs:366-380 | the count of valid ids equals the chunk count exactly when every chunk verifies with an id and all ids differ |
| Checksum.Compute | crates/steam/src/util/checksum.rs:63-80 | the blocked loop, in 32-bit arithmetic without overflow, computes the per-byte checksum: its low half is the sum of the bytes and its high half the sum of the bytes weighted by how many bytes there are from each to the end, both modulo 65521 |
| Checksum.AdlerValue | crates/steam/src/util/checksum.rs:63-80 | those are the two halves of the checksum all other theorems speak of |
| Checksum.DeferredModulo | crates/steam/src/util/checksum.rs:66-76 | reducing once after a block equals reducing after each byte |
| Checksum.BlockLengthIsTight | crates/steam/src/util/checksum.rs:66-72 | a block length keeps worst-case sums within 32 bits if and only if it is at most 5552 |
| Messages.PacketRoundTrip | crates/steam/src/messages/header.rs:186-227 | a written packet header is read back through the dispatch if and only if its id belongs to its header kind |
| Messages.WriteTo | crates/steam/src/client/msg.rs:50-57 | appends the message bytes, exactly as many as serialized_len says |
| Messages.IncomingBack | crates/steam/src/client/mod.rs:515-538 | parsing a written client message gives its id, header and body |
| Messages.ExtendedIncoming | crates/steam/src/client/mod.rs:539-553 | an extended-header message comes in with the last 16 bytes of its header in front of its body |
| Messages.BodiesAgree | crates/steam/src/client/mod.rs:515-554 | on every packet that dispatches, the body given by parse_incoming is the one parse_packet_header leaves if and only if the header is not the extended one |
| WireLayout.SimpleLayout | crates/steam/src/messages/header.rs:31-47 | the 20-byte header at its offsets: id 0, target job 4, source job 12 |
| WireLayout.ExtendedLayout | crates/steam/src/messages/header.rs:86-126 | the 36-byte header at its offsets, 4-1-2-8-8-1-8-4 bytes, the session id signed |
| WireLayout.ProtoLayout | crates/steam/src/messages/header.rs:148-167 | the protobuf header: flag in bit 31, length at 4, data from 8 |
| WireLayout.PacketLayout | crates/steam/src/messages/header.rs:196-227 | the dispatch on bit 31 and on the ids 1303, 1304 and 1305 |
| WireLayout.IncomingLayout | crates/steam/src/client/mod.rs:515-554 | what parse_incoming returns on every input, byte by byte, and which error |
| Messages.ReadProto | crates/steam/src/messages/header.rs:148-167 | the reader-advancing parse equals its specification and leaves the body |
| Messages.ReadSimple | crates/steam/src/messages/header.rs:31-47 | likewise for the fixed header |
| LittleEndian.ReadFieldsBack | crates/steam/src/messages/header.rs:31-128 | reading fixed-width fields inverts writing them, before any rest |
| LittleEndian.FieldsExact | crates/steam/src/messages/header.rs:31-128 | a read succeeds exactly on enough bytes, and what it read writes back to the same bytes |
| LittleEndian.Numbers | crates/steam/src/messages/header.rs:31-128 | numbers of 1, 2, 4 and 8 bytes have their first byte counting least |
| Framing.ParseFrame | crates/steam/src/connection/framing.rs:34-54 | the streaming parser equals its specification and advances past the frame |
| Framing.FrameBack | crates/steam/src/connection/framing.rs:57-69 | parsing inverts framing, leaving exactly the rest |
| Framing.FrameExact | crates/steam/src/connection/framing.rs:34-54 | every frame parsed is the framing of its payload |
| Framing.PrefixIncomplete | crates/steam/src/connection/framing.rs:34-47 | every strict prefix of one frame is incomplete |
| WireLayout.FrameLayout | crates/steam/src/connection/framing.rs:34-54 | a frame is a length at 0, the bytes 56 54 30 31 (hex) at 4, and that many bytes from 8; what is incomplete and what has a bad magic |
| Framing.TcpTransport.Recv | crates/steam/src/transport/tcp.rs:58-81 | agrees with parse_frame on every stream: same payload and rest, wrong magic, or end of file where it is incomplete |
| Framing.TcpTransport.Send | crates/steam/src/transport/tcp.rs:49-56 | appends exactly one frame |
| SessionCipher.CbcDecEnc | crates/steam/src/connection/encryption.rs:63-65 | CBC decryption inverts CBC encryption (section 6.2 of NIST SP 800-38A) |
| SessionCipher.CbcEncDec | crates/steam/src/connection/encryption.rs:86-89 | and the other way round |
| SessionCipher.UnpadExact | crates/steam/src/connection/encryption.rs:86-89 | unpadding gives p exactly on the padding of p (section 6.3 of RFC 5652) |
| SessionCipher.EncryptOpens | crates/steam/src/connection/encryption.rs:52-71 | decryption inverts encryption for every plaintext and random bytes, which are recovered too |
| SessionCipher.DecryptExact | crates/steam/src/connection/encryption.rs:74-99 | a ciphertext is accepted as p if and only if it is the encryption of p under the 3 random bytes recovered from it |
| SessionCipher.EncryptInjective | crates/steam/src/connection/encryption.rs:52-71 | equal ciphertexts have equal plaintexts and random bytes |
| SessionCipher.CbcBlocks | crates/steam/src/connection/encryption.rs:63-65 | each ciphertext block is the encryption of its plaintext block added bitwise to the ciphertext block before it, or to the vector |
| SessionCipher.XorByteBits | crates/steam/src/connection/encryption.rs:63-65 | that addition, bit by bit |
| SessionCipher.PadExactly | crates/steam/src/connection/encryption.rs:63-65 | padding adds 1 to 16 bytes, each of them the number added |
| SessionCipher.EncryptExactly | crates/steam/src/connection/encryption.rs:52-71 | the first block is the encryption of 13 bytes of MAC over random and plaintext and the 3 random bytes; the rest chains the padded plaintext from it |
| SessionCipher.DecryptErrors | crates/steam/src/connection/encryption.rs:74-99 | which of the two errors, on every input |
| WireStack.StackRoundTrip | crates/steam/src/client/mod.rs:389-423 | any sequence of messages serialised, encrypted, framed and concatenated, followed by anything, is received message for message and leaves what followed |
| WireStack.SendAll | crates/steam/src/client/mod.rs:389-394 | sending them writes exactly that stream |
| WireStack.WireSplit | crates/steam/src/client/mod.rs:389-394 | message i lies on the wire as one frame of the encryption of its bytes, between those before and those after it |
| WireStack.RecvAll | crates/steam/src/client/mod.rs:415-423 | receiving n messages is the specification the round trip is about |
| Multi.UnpackMulti | crates/steam/src/client/multi.rs:20-57 | the loop returns the records of the payload, unzipped only for a positive size |
| Multi.RecordsMaximal | crates/steam/src/client/multi.rs:44-54 | the payload is those records followed by a tail that holds no complete record |
| Multi.RecordsBack | crates/steam/src/client/multi.rs:44-54 | records written one after another are read back, whatever follows |
| WireLayout.BundleLayout | crates/steam/src/client/multi.rs:44-54 | each record lies in the payload behind its 4-byte length, one after another from 0, up to where no complete one is left |
| WireLayout.UnpackExactly | crates/steam/src/client/multi.rs:20-42 | nothing without a payload; the payload unzipped exactly if a size above 0 is given; both errors |
| Pump.RouteConserves | crates/steam/src/client/mod.rs:402-410 | routing neither loses nor duplicates a message |
| Pump.RouteAnswersWaiters | crates/steam/src/client/mod.rs:461-473 | each delivery is a response to a registered waiter, at most one a waiter, and never to the excepted job; a waiter left over got no response in the stream |
| Pump.RouteAppend | crates/steam/src/client/mod.rs:453-513 | routing a stream in two parts is routing it whole |
| Pump.PartsExactly | crates/steam/src/client/mod.rs:423-432 | the messages of a bundle are, in order, the parses of exactly its parts that parse |
| Pump.ContentsExactly | crates/steam/src/client/mod.rs:415-435 | when a packet opens and what it holds: its own message, or if that has id 1 the parts of its bundle |
| Pump.AheadExactly | crates/steam/src/client/mod.rs:397-435 | a message is in the stream a reader meets if and only if some packet holds it, bundled or not, and that packet and all before it open |
| Bundles.BundleBack | crates/steam/src/client/mod.rs:397-444 | end to end: messages written into a bundle, zipped or not, encrypted or not, are exactly what its packet holds, in order |
| Bundles.BundledResponseArrives | crates/steam/src/client/mod.rs:361-375 | so a response anywhere in a bundle answers the call, if the packets before it open |
| Pump.StreamEnds | crates/steam/src/client/mod.rs:415-423 | the messages a reader meets are those of the packets that open; the error after them is the end of the transport, or that of the first packet that does not open |
| Pump.Client.TakeMessage | crates/steam/src/client/mod.rs:398-435 | takes the next message of the stream; fails exactly where the stream ends, with the error it ends with; nothing else of it changes |
| Pump.Client.RecvRouted | crates/steam/src/client/mod.rs:453-513 | the messages taken and the one returned, followed by what is left, are the stream there was, in order; all taken ones went to their waiters; it fails exactly at the end of the stream, after routing all of it |
| Pump.Client.AwaitResponse | crates/steam/src/client/mod.rs:361-375 | succeeds if and only if a message 147 with the job number is queued or arrives in a packet, bundled or not, before any packet that does not open, and returns the first one; everything before it went in order to a waiter or to the event channel; otherwise the error is the one the stream ends with |
| Pump.Client.CallServiceMethod | crates/steam/src/client/mod.rs:335-376 | uses a fresh job id, gets a response if and only if the stream holds one to it, the first, and returns its body unless it carries a result code other than 1, which is then the error |
| Callers.CallsCorrelated | crates/steam/src/client/mod.rs:335-376 | over any interleaving of callers (below 2^64 calls) job ids differ and a call returns a response to its own id and no other |
| Callers.CallsConserve | crates/steam/src/client/mod.rs:397-513 | over any interleaving no message is lost or duplicated |
| CallersFate.KeptIffNoTaker | crates/steam/src/client/mod.rs:335-380 | over all interleavings: a call never loses its response if and only if no other caller can come to take a message (none idle, at the queue, or holding a packet that sends it back there, and none blocked on the transport that will get to it); otherwise some run without a failure leaves it waiting for a response that is gone |
| CallersFate.KeptWhenAlone | crates/steam/src/client/mod.rs:335-380 | in whatever phase the call is, as long as no other caller is idle, reading, at the queue or about to be, its response stays where it can read it, or in its hands, in every continuation |
| CallersFate.BeforeTheCall | crates/steam/src/client/mod.rs:335-341 | the same condition, read off the other callers before the call begins |
| CallersFate.GetsResponse | crates/steam/src/client/mod.rs:361-375 | left to itself the call returns with its response |
| CallersAlone.LeftAlone | crates/steam/src/client/mod.rs:335-376 | refinement: whatever steps a call takes while no other caller does, what it has dealt with is in order the front of what lay ahead, routed and forwarded as by the single reader, and it returns the first message that answers it |
| Callers.StolenResponse | crates/steam/src/client/mod.rs:397-513 | a run in which another service call, or a recv_msg, reads the packet that answers a call: the response goes to the event channel or to the application, and however the run goes on that call never returns |
| KvText.SkipWhitespaceAndComments | crates/steam/src/types/key_value.rs:332-346 | the loop equals the recursive specification |
| KvText.ParseQuotedString | crates/steam/src/types/key_value.rs:301-330 | likewise, with escapes and both errors |
| KvText.ParseTextNode | crates/steam/src/types/key_value.rs:261-282 | likewise for a node |
| KvText.ParseTextChildren | crates/steam/src/types/key_value.rs:284-299 | likewise for the children of a section |
| KvText.ParseTextKv | crates/steam/src/types/key_value.rs:245-248 | likewise for a whole text, trimmed |
| KvText.NodeBack | crates/steam/src/types/key_value.rs:261-299 | a printed tree parses back and leaves exactly what followed |
| KvText.TextRoundTrip | crates/steam/src/types/key_value.rs:245-346 | the printed form of any tree, with any strings, any white space and comments between tokens and anything after it, parses to the tree |
| KvText.EveryTreePrints | crates/steam/src/types/key_value.rs:245-346 | every string/section tree with agreeing keys has such a printed form |
| KvText.TextTreesAreWhatParses | crates/steam/src/types/key_value.rs:245-346 | a tree is the parse of some text if and only if it is such a tree |
| KvLayout.UnescapeExactly | crates/steam/src/types/key_value.rs:301-330 | a quoted string is unescaped token by token: n, t, backslash and quote after a backslash have their meaning, any other character keeps its backslash; accepted exactly if an unescaped quote ends it |
| KvLayout.TextErrors | crates/steam/src/types/key_value.rs:261-330 | which error: no quote where a string must start, a string without end, or neither brace nor quote after a key |
| KvLayout.AfterLineExactly | crates/steam/src/types/key_value.rs:332-346 | a comment ends after its line feed or with the text |
| Whitespace.SpaceIs | crates/steam/src/types/key_value.rs:334-334 | white space is exactly the 25 code points of the Unicode property |
| Whitespace.TrimStartCut | crates/steam/src/types/key_value.rs:245-248 | trimming takes exactly the white space in front |
| KeyValues.InsertedExactly | crates/steam/src/types/key_value.rs:203-220 | a section has exactly the keys of its nodes, and under each the last node with it |
| KvBinary.FromU8 | crates/steam/src/types/key_value.rs:43-58 | a byte has the tag whose code it is, and no other byte has one |
| KvBinary.ParseNode | crates/steam/src/types/key_value.rs:134-201 | the parser equals its specification |
| KvBinary.ParseChildren | crates/steam/src/types/key_value.rs:204-220 | the children loop equals its specification |
| KvBinary.ParsedNode | crates/steam/src/types/key_value.rs:134-220 | on every input success strictly shrinks it, leaves a suffix, and puts every child at any depth under its own key |
| KvBinary.BinaryRoundTrip | crates/steam/src/types/key_value.rs:129-230 | any encoding of a tree, with either terminator in each section and followed by anything, parses to the tree and exactly what followed |
| KvBinary.EveryTreeEncodes | crates/steam/src/types/key_value.rs:129-230 | every tree of encodable strings has such an encoding |
| KvBinaryTruncated.TruncationExact | crates/steam/src/types/key_value.rs:129-230 | a strict prefix of an encoding is accepted if and only if it ends between two children of a section still open, at any depth, and then it reads as the tree with the children before the cut |
| KvTextTruncated.TruncationExact | crates/steam/src/types/key_value.rs:245-346 | a strict prefix of a printed tree, its trailing white space trimmed, is accepted if and only if it ends in a gap of a section still open (not after the first slash of a comment), and then it reads as the tree with the children before the cut |
| KvBinary.WideStringIsSkipped | crates/steam/src/types/key_value.rs:189-189 | a wide string becomes the empty string and its bytes are parsed as what follows |
| KvLayout.NodeLayout | crates/steam/src/types/key_value.rs:134-201 | a node on every input: each type byte from 0x00 to 0x0B, the value bytes it takes and the value they mean, and which error otherwise |
| KvLayout.KidsLayout | crates/steam/src/types/key_value.rs:204-220 | children end at a byte 0x08 or 0x0B, which is taken, or with the input |
| NullStrings.NullStringBack | crates/steam/src/types/key_value.rs:223-230 | a NUL-terminated string is read back and leaves exactly what followed |
| Manifests.ReadChunk | crates/steam/src/depot/manifest.rs:223-245 | reads one 40-byte chunk record as specified |
| Manifests.ReadChunks | crates/steam/src/depot/manifest.rs:221-246 | reads exactly the announced number of them, or fails |
| Manifests.ReadRecord | crates/steam/src/depot/manifest.rs:197-255 | reads one file record as specified |
| Manifests.ReadRecords | crates/steam/src/depot/manifest.rs:190-258 | the loop equals its specification; its counter is what the reader has advanced by since the header |
| Manifests.ParseV4Manifest | crates/steam/src/depot/manifest.rs:136-269 | the parser equals its specification |
| Repeated.RecordsExact | crates/steam/src/depot/manifest.rs:190-258 | the loop accepts exactly the inputs that split into records of which the last, and no earlier one, reaches the declared size |
| Manifests.V4Exact | crates/steam/src/depot/manifest.rs:136-269 | a version 4 manifest is accepted if and only if the 68-byte header is there, names version 4, and the records split that way |
| Manifests.RecordsAreLong | crates/steam/src/depot/manifest.rs:194-257 | each record takes at least 57 bytes |
| Manifests.V4RoundTrip | crates/steam/src/depot/manifest.rs:136-269 | parsing inverts the encoder, whatever the ignored fields hold and whatever follows |
| ManifestLayout.V4InFields | crates/steam/src/depot/manifest.rs:136-269 | data with the version 4 magic parses to a manifest exactly if the header at its byte offsets says so and the files lie behind it, each field and chunk at its offset |
| ManifestLayout.RecordLayout | crates/steam/src/depot/manifest.rs:194-257 | one file record: name up to the NUL, then size, flags, hash, ignored hash, count and 40-byte chunks at fixed offsets; fails exactly if something of it is missing |
| ManifestLayout.V4Errors | crates/steam/src/depot/manifest.rs:136-269 | a version other than 4 is named, everything else is a missing section |
| ManifestSections.ParseV5 | crates/steam/src/depot/manifest.rs:272-362 | the section loop equals its specification |
| ManifestSections.SectionsBack | crates/steam/src/depot/manifest.rs:278-322 | any list of readable sections parses to what its last payload and last metadata say |
| ManifestSections.V5Exact | crates/steam/src/depot/manifest.rs:272-362 | a version 5 manifest is accepted if and only if it is a list of readable sections up to an end marker with a payload and a metadata section among them; the last of each makes the manifest |
| ManifestSections.OnlyTheLastMatter | crates/steam/src/depot/manifest.rs:298-322 | reordering, repeating or dropping sections changes nothing while the last payload and last metadata stay |
| ManifestLayout.V5InFields | crates/steam/src/depot/manifest.rs:272-362 | other data parses to a manifest exactly if it is a list of sections with the three magics that decode, up to the end marker, and the manifest says field by field what the last payload and the last metadata do: ids and hashes of 20 bytes or none, both chunk sizes, checksum, offset, name, size, flags, link target or none if empty, the six metadata fields, all in order |
| ManifestLayout.SectionStep | crates/steam/src/depot/manifest.rs:278-322 | one turn of the section loop on every input, and which error |
| ManifestSections.Parse | crates/steam/src/depot/manifest.rs:101-113 | the choice of format |
| ManifestSections.ParseRoundTrip | crates/steam/src/depot/manifest.rs:101-113 | both encoders are inverted through it |
| ManifestSections.ParsedHashesAreWhole | crates/steam/src/depot/manifest.rs:328-333 | in either format, every content hash and chunk id of a parsed manifest has 20 bytes |
| Filenames.Listing.DecryptFilenames | crates/steam/src/depot/manifest.rs:69-96 | on success a stable sort of the renamed entries with the flag cleared; on failure order and flag kept and exactly the named entries before the failing one renamed; without the flag nothing |
| Filenames.SortedRenaming | crates/steam/src/depot/manifest.rs:86-92 | the result is a permutation of the entries, each with its name decrypted and nothing else changed, in lexicographic order of names |
| Filenames.StableSortUnique | crates/steam/src/depot/manifest.rs:87-92 | there is only one stable sort, so the sort used does not matter |
| Filenames.AfterFailure | crates/steam/src/depot/manifest.rs:74-85 | a second call after a failure decrypts the plain names again: it stops at the first of them that cannot be decrypted, and at the same entry as the first call if and only if all of them can |
| Filenames.LeqExactly | crates/steam/src/depot/manifest.rs:87-92 | the order is lexicographic: a prefix first, else the first difference decides |
| FilenameCipher.DecryptNameExactly | crates/steam/src/depot/manifest.rs:374-423 | a name decrypts exactly if, its white space aside, it is base64 of an encrypted vector and a padded plaintext chained from it, and then to the text before the first NUL with slashes for backslashes |
| FilenameCipher.NameBack | crates/steam/src/depot/manifest.rs:374-423 | an encrypted name comes back, whatever follows a NUL in it and whatever white space was put into the text |
| ManifestCache.DecimalInjective | crates/steam-client/src/manifest.rs:57-65 | different numbers print differently |
| ManifestCache.HexInjective | crates/steam/src/util/checksum.rs:29-36 | different hashes print differently |
| ManifestCache.DecimalExactly | crates/steam-client/src/manifest.rs:57-65 | numbers print in decimal, most significant digit first, without leading zeros |
| ManifestCache.HexExactly | crates/steam/src/util/checksum.rs:18-36 | hashes print as two lower-case hexadecimal digits a byte, high digit first |
| ManifestCache.PathsDistinct | crates/steam-client/src/manifest.rs:57-65 | no two cache files share a path |
| ManifestCache.Cache.SaveManifest | crates/steam-client/src/manifest.rs:97-121 | the state after a save cut off at any byte of either file, and when it returns Ok |
| ManifestCache.SaveExactly | crates/steam-client/src/manifest.rs:97-121 | what a save does to each file by name: the hash is written only after the whole manifest, and no other path is touched |
| ManifestCache.Cache.Load | crates/steam-client/src/manifest.rs:68-94 | equals its specification: both files, the trimmed hash, the parse |
| ManifestCache.LoadExactly | crates/steam-client/src/manifest.rs:68-94 | a load gives a manifest exactly if both files are there under their names, the second is the hash of the first in hexadecimal with any white space around it, and the first parses |
| ManifestCache.LoadIsSaved | crates/steam-client/src/manifest.rs:68-121 | over any sequence of saves, each cut off anywhere, a load finds nothing or parses a prefix of saved bytes with the hash of bytes some save of that same entry extracted |
| ManifestCache.LoadIsSomeSave | crates/steam-client/src/manifest.rs:68-121 | without a collision among those, it parses the bytes of some save of that entry |
| ManifestCache.SaveThenLoad | crates/steam-client/src/manifest.rs:68-121 | a whole save is loaded back, whatever was there before and whatever other entries are saved, wholly or not, afterwards |
| ManifestCache.RecordInstalled | crates/depotdownloader/src/main.rs:788-794 | load, set and save, the save cut off anywhere, give the next content of the record |
| ManifestCache.InstalledManifest | crates/depotdownloader/src/main.rs:745-748 | what is read back before a download is the manifest of the recording that counts |
| ManifestCache.InstalledIsWhatCounts | crates/steam-client/src/manifest.rs:135-159 | over any recordings, each cut off anywhere, a depot has a manifest on record if and only if a recording of it completed and nothing after it destroyed the file or completed for that depot |
| ManifestCache.ConfigAfterSave | crates/steam-client/src/manifest.rs:135-148 | after a save cut off anywhere the next load has the new record, the old one, or nothing at all, and exactly when |

## Left out

- HTTP, DNS, TCP connect, CDN URLs and server choice: a fetch is a step that yields any bytes or fails.
- Real file systems: a path maps to bytes, writes take effect at once, a rename is atomic; no buffering, `fsync`, permissions, directories or devices. A crash keeps every completed write.
- AES, HMAC, SHA-1, gzip, zstd, LZMA, ZIP, base64 and protobuf internals: function values with the hypotheses above.
- `login`, `encrypt`, `send_msg` patching of session ids, heartbeats: exchanges with a remote server whose answers are not constrained.
- Sending the request of a service call: `CallServiceMethod` and `Callers` begin at the id and then receive; the bytes sent are those of `WireStack`.
- `pending_jobs`: nothing in the code inserts into it, so it is an arbitrary set of waiters.
- `SteamClient` in several threads: `Callers` covers interleavings of calls and `recv_msg`; the theorems about order are about the single reader of `Pump`.
- FetchWithRetry: does not model a release build, where the shift wraps, nor the overflow of a `Duration`.
- `FileCompleted` and `ChunkCompleted` events: emitted beside steps that are modelled; they carry no state.
- Panics inside tasks, allocation failure and the capacity reserved for an announced count (`manifest.rs:221`).
- Failures half way through one delta copy, or between the check of a verified staging file and its rename: they leave the installed file alone and staging holding some bytes, from which every theorem about a later run starts.
- A wide-string KeyValue: its bytes are not skipped by the code, and are not here; no tree has one.
- Float32: its four bytes, not its value.
- `KeyValue::get` and the `as_` accessors: lookups without a state of their own.
- The v4 error labels: one error stands for all missing sections.
- Text: a cached hash file that is not ASCII counts as unreadable; no save writes one.
- JSON of the install record: a printer and a parser with the two properties of `ManifestCache.Strict`.
- LoadIsSomeSave: assumes no collision between a prefix of saved bytes and saved bytes, which `LoadIsSaved` does not.
- KeptIffNoTaker: is about a call at the queue, as it is when it begins, whose job is answered once, before any packet that does not open. For a call already blocked on the transport, or answered twice, only the half `KeptWhenAlone` is stated: whether a response can then be lost also depends on packets that may never come.
- ConvergesToContent: assumes that no staged chunk that verifies as a run starts, no response a run accepts, and no target that verifies at the outset collides with the published bytes; a 32-bit checksum cannot rule that out.
- Command line, prompts, progress rendering, language bindings, capture and replay transports, token store: thin layers without invariants of their own.
