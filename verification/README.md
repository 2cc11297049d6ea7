# rasync: a verified model of its core

rasync keeps a folder the same on two machines. Each peer describes its tree to the other
as a manifest, decides from three manifests (its own, the peer's, and the last agreed
baseline) what to pull and what to delete, and pulls changed files as rsync-style deltas.
This project models that core in Dafny and proves what it is for.

| module | source | what it holds |
|---|---|---|
| `Types`, `Order` | | machine integers as ranges, metadata, byte order, sorted listings |
| `Delta` | `core/delta.cpp` | rolling checksum, signature, scan, patcher |
| `Merge`, `Convergence` | `core/diff.cpp` | the three-way merge, and two peers running it against each other |
| `Rounds` | `net/sync_session.cpp` | one peer over time: edits, scans, rounds, and the pulls and deletions they order |
| `Manifests` | `core/manifest.cpp` | manifests, patches, the merge walk that computes one |
| `Serialize`, `Codec` | `core/serialize.h`, `core/manifest.cpp`, `core/delta.cpp` | writer and reader, and the wire formats |
| `Fingerprint` | `core/manifest.cpp` | the bytes a fingerprint hashes |
| `Chunking`, `Advert`, `AdvertSystem` | `net/sync_session.cpp`, `net/sync_service.cpp` | incremental advertisement over a FIFO channel |
| `EvalGate` | `net/sync_session.cpp` | the convergence check, its version gate, and the baselines it persists |
| `SendWindow` | `net/sync_session.cpp` | the literal-byte window and its acks |
| `FileTransfer`, `Landings` | `net/sync_session.cpp` | serving a file as messages, rebuilding and verifying it; and what any run of messages and disk errors does to the receiver's files |
| `Pulls` | `net/sync_session.cpp` | pull reservations from request to release |
| `Segments`, `PathGlob`, `Ignore` | `core/ignore.cpp` | wildcard matching and the ignore list |
| `Scan` | `core/scanner.cpp` | the directory walk over a graph with links |

Objects whose methods update fields are classes (`BinaryWriter`, `BinaryReader`, `Manifest`,
`IgnoreList`, and the session's state machines); loops are loops. Each method is tied to a
specification function or predicate, and the theorems are about those. The protocol
machines are step systems: the pairs of actions the program does not make atomic (send and
then note it as sent, change a tree and then bump its version, read a version and then copy
the tree, copy one tree and then another) are separate steps, and the theorems about them
are over all runs. A `hide` statement in a proof only keeps definitions the proof
does not need away from the solver.

Hypotheses are stated where they are used: the strong hash and SHA-256 are arbitrary
functions, and only `Delta.RoundTrip`, the last clause of `Delta.Transfer`,
`FileTransfer.DeltaPullDelivers` and `FileTransfer.RetryRecovers` assume anything about
collisions; which paths are safe and which are ignored are arbitrary predicates; the channels
are FIFO.

Where the documentation says more than the code does, the code is modelled, an input that
shows it is given, and the condition under which the promise holds is proved, exactly where
an if-and-only-if is stated below:

- delta.h promises the round trip "for any inputs". A merged COPY adds into a 32-bit length,
  so at 4 GiB it can fail (`Delta.FourGiBRoundTripFails`); `Delta.RoundTripExactly` says when
  it holds. The session stays below that through `delta_max_bytes`.
- manifest.h promises that equal fingerprints describe identical trees. The hashed bytes
  give paths no length prefix, so that needs NUL-free paths and sizes below 2^56
  (`Fingerprint.PreImageNamesTree`). Neither can be dropped: 2^56 is the largest bound
  that works (`Fingerprint.SizeBoundExactly`), and with NUL in paths, which
  `is_safe_relpath` lets through, none does (`Fingerprint.NulPathsConfuseExactly`).
- diff.h promises that edits on both sides surface as conflicts. A plan keeps that promise
  (`Merge.NoSilentLoss`); a round does not, since what it ordered is carried out later and
  without another look. `Rounds.SilentLossExactly` says what is destroyed that no plan has
  reported, and `Rounds.LateEditIsLost` gives such a run.
- README.md promises that a verified file replaces the old one atomically. A move that fails
  may already have removed the old copy, and so does verified content whose xid was started
  twice, with no disk error at all (`Landings.RestartLosesFile`); the manifest goes on
  listing the file.
  `Landings.PresentExactly` says when a file is there.
- daemon.cpp promises that a file landing while a scan walks keeps the entry its transfer
  recorded. It does where the scan saw no change (`Manifests.RescanKeepsExactly`); where the
  scan saw the old file gone, the entry is dropped (`Manifests.RescanDropsLandedFile`).
- Two trees converge only on the paths both peers consider safe. The scanner does not
  apply the rule for names that the session does, so a file named against it is in one
  tree for ever, and its peer is never in sync (`Convergence.UnsafePathNeverSettles`,
  `Convergence.PlansAtRest`).
- ignore.h promises that `*` matches within a segment. A `*` that is part of the file name is
  matched literally first, and then no star is left to go back to
  (`Segments.NamesReadExactly`, `Segments.PatternsReadExactly`, `PathGlob.PathsReadExactly`).
  An unanchored pattern is meant at any depth; for the same reason a lone `**` is not,
  where every name begins with two stars and goes on (`PathGlob.AnyDepthExactly`,
  `Ignore.UnanchoredIsShorthand`).
- scanner.h promises that the walk refuses to enter a directory already on its chain. Only
  links are refused; an ordinary subdirectory can be entered again
  (`Scan.SubdirectoryReentered`), exactly when a link climbs above the chain
  (`Scan.ReentersExactly`). The walk still ends.
- The merge's two plans are complements except where sizes differ under one hash and one
  mtime, or deletions are switched off (`Merge.ExactlyOneActs`); and the handshake's two ways
  of not converging, trees that stay apart and versions that swap places, then occur
  (`Convergence.ConvergenceExactly`). Below, a disagreement is unresolvable where a needed
  deletion is switched off or the tie cannot be broken, on a path both peers can see, or
  where their modes and policies do not pair.
- A transfer can block forever when the window is below the ack interval less one
  (`SendWindow.StuckExactlyBelowAckInterval`).

## Model

| member | source | states |
|---|---|---|
| `Delta.WeakChecksum` | src/rasync/core/delta.cpp:21-30 | the 32-bit wrapping loop computes the weighted byte sums modulo 2^16, packed |
| `Delta.SignatureOf` | src/rasync/core/delta.cpp:32-44 | one weak and one strong hash per block of the base, the last block short, at the block size asked for, or 2048 when none is |
| `Delta.RollTracks` | src/rasync/core/delta.cpp:182-186 | sliding the window keeps the wrapping pair equal, modulo 2^16, to the sums of the window recomputed from scratch |
| `Delta.FindMatch` | src/rasync/core/delta.cpp:161-178 | the weak filter and strong confirm return a matching block, and return none only when no block of the signature matches there |
| `Delta.ComputeDelta` | src/rasync/core/delta.cpp:116-192 | the rolling scan emits exactly what a naive greedy scan emits, and as compactly as can be: no COPY goes on where the one before it stops, no two literals stand together, none is empty |
| `Delta.ApplyDelta` | src/rasync/core/delta.cpp:196-208 | the patcher rebuilds what the instructions say, or nothing when one reaches past the base |
| `Delta.PatchMeansTrace` | src/rasync/core/delta.cpp:121-142 | for any strong hash a scan's patch is never malformed, and its output length differs from the target's only by 2^32 per wrapped merge |
| `Delta.BytesAreConserved` | src/rasync/core/delta.cpp:102-112 | literal plus copied bytes are the target's length, up to wrapped merges, and literals are the bytes the scan gave up on |
| `Delta.SmallNeverWraps` | src/rasync/core/delta.cpp:121-128 | below 4 GiB no merge wraps |
| `Delta.RoundTripExactly` | src/rasync/core/delta.cpp:116-208 | for any strong hash, patching gives the target if and only if no merge wrapped and no taken block was a false match |
| `Delta.RoundTrip` | src/rasync/core/delta.h:21-22 | patching the base with the delta gives the target, for every base, block size and target below 4 GiB without a strong collision |
| `Delta.FourGiBRoundTripFails` | src/rasync/core/delta.cpp:123-126 | a 4 GiB file scanned against itself can merge into a COPY of length zero |
| `Delta.TrueMatchMatches` | src/rasync/core/delta.cpp:161-170 | equal bytes always pass both hash tests, so the weak filter drops no true match |
| `Delta.EveryTrueMatchIsCopied` | src/rasync/core/delta.cpp:159-190 | every scanned position whose window equals a whole base block becomes a COPY |
| `Delta.SharedPrefixIsFree` | src/rasync/core/delta.cpp:159-192 | whole blocks a target shares with the front of the base cost no literal bytes |
| `Delta.UnchangedFileCostsItsTail` | src/rasync/core/delta.cpp:159-192 | an unchanged file costs exactly size modulo block size literal bytes |
| `Delta.Transfer` | src/rasync/core/delta.h:8-22 | sign, scan and patch in sequence, for every base, block size and target: the output is shorter than the target by exactly 2^32 per wrapped merge, and is the target exactly when none wrapped and no taken block was a false match; below 4 GiB and without a collision, always |
| `Merge.PoliciesComplement` | src/rasync/core/diff.cpp:25-48 | a policy and its complement pick one winner between them, except on the one tie Newer cannot break |
| `Merge.KeptIsUndeleted` | src/rasync/core/diff.cpp:60-95 | the copies that switching deletions off keeps, told from modes, policy and contents, are exactly those switching them on deletes |
| `Merge.ExactlyOneActs` | src/rasync/core/diff.cpp:50-95 | on a disagreeing path, two paired peers plan complementary actions exactly when the tie is breakable and no needed deletion is switched off, whatever the baseline |
| `Merge.OneSidedChangeSurvives` | src/rasync/core/diff.cpp:25-74 | in two-way mode a change made on one side only survives, and otherwise it is a conflict and what survives is what the policy is named for, ties going to the later mtime and then the later hash, unless the change is a deletion this side is told to ignore, when its copy stays |
| `Merge.HandshakeTestIsExact` | src/rasync/net/sync_session.cpp:320-331 | with deletions on, the handshake refuses exactly the policy pairs that can fail to resolve a disagreement other than the tie Newer cannot break |
| `Merge.Reconcile` | src/rasync/core/diff.cpp:127-145 | the plan's columns list, sorted and each path once, exactly the paths decided that way |
| `Merge.PlanIsEmptyExactly` | src/rasync/core/diff.cpp:50-95 | with deletions on, a plan is empty if and only if the trees have the same paths with the same sizes and hashes |
| `Merge.MirrorPlanExactly` | src/rasync/core/diff.cpp:76-87 | in mirror mode the source pulls and deletes nothing and the replica gives nothing; what the one pushes and the other pulls are just the paths where the replica lacks the source's size or hash, and nothing is a conflict |
| `Merge.NoSilentLoss` | src/rasync/core/diff.cpp:50-74 | in two-way mode a plan, judged by the trees it was made from, overwrites or deletes a local change only at a reported conflict, and deletes only unchanged copies unless the remote is preferred |
| `Rounds.StepKeepsInvariant` | src/rasync/net/sync_session.cpp:455-561 | in two-way mode every step of edits, scans, rounds, landings and notes keeps all that the manifest, each copy of it and each ordered action know something the disk once held, at the time they say, and each action's entry unchanged or reported |
| `Rounds.StampIsLastWrite` | src/rasync/net/sync_session.cpp:964-1023 | what a file holds is what the last edit, landing or removal of it put there |
| `Rounds.SilentLossExactly` | src/rasync/net/sync_session.cpp:455-1000 | over every run, in two-way mode, an ordered pull or deletion destroys content that is not the baseline's and that no plan so far has reported in conflict if and only if the last write to that file came after the entry its plan saw, left such content, and no plan before then reported it |
| `Rounds.LateEditIsLost` | src/rasync/net/sync_session.cpp:977-1000 | a run of five steps in which an edit made between the plan and the landing of its pull is overwritten with no conflict reported |
| `Convergence.StepSettles` | src/rasync/net/sync_session.cpp:41-52 | where no disagreement is unresolvable, a landing or deletion, even one planned on a stale view of the other tree that lacks its unsafe paths, settles just the path it is about, and no other |
| `Convergence.StepKeepsInvariant` | src/rasync/net/sync_session.cpp:455-502 | where no disagreement is unresolvable, every request, landing, deletion and stale view of the safe part of a past tree keeps each peer's past between its initial tree and the one outcome, and what is on its way is what its receiver ends with |
| `Convergence.RunsAreSafe` | src/rasync/net/sync_session.cpp:455-502 | where no disagreement is unresolvable, over every interleaving, with each peer hearing only the safe part of the other's past trees, landings and deletions so far plus what is left to settle equal what there was to settle |
| `Convergence.QuietMeansConverged` | src/rasync/core/diff.h:1-40 | where no disagreement is unresolvable, every run that goes quiet ends in the one outcome the initial trees determine, with the trees agreeing on every path both can see, in two-way and in mirror mode, in exactly as many actions as there was to settle |
| `Convergence.UnsettledMeansWork` | src/rasync/net/sync_session.cpp:455-502 | where no disagreement is unresolvable, while a path both can see disagrees, or one only its holder can see is to be deleted, peers who have heard all they can have something to do |
| `Convergence.PlansAtRest` | src/rasync/net/sync_session.cpp:595-611 | at rest, where no disagreement was unresolvable, and with deletions on, both plans are empty, for every baseline, if and only if neither tree holds an unsafe path; with deletions off, exactly when each such path is one the plan keeps |
| `Convergence.UnsafePathNeverSettles` | src/rasync/net/sync_session.cpp:41-52 | a file whose name the peer's rule refuses, new on one side, is never heard of by the other in any run, and stays in that side's plan for ever |
| `Convergence.SwapRun` | src/rasync/net/sync_session.cpp:313-318 | where both peers plan a pull and both ask before either lands, the versions swap places and nothing is settled |
| `Convergence.SourceNeverYields` | src/rasync/core/diff.cpp:76-87 | in no run between a mirror's source and its replica does the source's tree change, nor anything leave it but its files as they began |
| `Convergence.ReplicaEndsEqual` | src/rasync/core/diff.h:18-19 | at rest the replica has the source's size and hash on every path both can see, and with deletions on nothing else there |
| `Convergence.ConvergenceExactly` | src/rasync/net/sync_session.cpp:313-318 | with paired options, every run makes progress with each action and agrees where it has come to rest if and only if, on each disagreeing path both can see, the tie is breakable and no needed deletion is switched off |
| `Manifests.Manifest.Apply` | src/rasync/core/manifest.cpp:65-70 | the entries become the patched tree: set first, then removed |
| `Manifests.PatchDecides` | src/rasync/core/manifest.cpp:65-70 | for any patch, one from a peer included: a path it removes is gone, else the last entry for it stands, else it is as it was |
| `Manifests.DiffManifests` | src/rasync/core/manifest.cpp:72-90 | the walk over two sorted trees lists every path added or changed, and every path gone, sorted |
| `Manifests.DiffIsExact` | src/rasync/core/manifest.h:30-32 | applying the patch to the manifest it was computed from gives the one it was computed to |
| `Manifests.DiffCarriesChanges` | src/rasync/core/manifest.cpp:65-90 | applied to any other tree, the patch carries over what changed and leaves the rest |
| `Manifests.DiffIsMinimal` | src/rasync/core/manifest.cpp:72-90 | it names each differing path once, is empty only between equal trees, and no patch with the same effect is smaller |
| `Manifests.RescanKeepsExactly` | src/rasync/app/daemon.cpp:547-561 | a file a session stores or removes during a scan survives the scan's patch if and only if the scan saw no change there, or found just what the session put there; otherwise the scan's finding takes its place |
| `Manifests.RescanDropsLandedFile` | src/rasync/app/daemon.cpp:551-553 | a file deleted before the scan looked and pulled again before its patch is applied ends on disk without an entry |
| `Serialize.BeRoundTrip` | src/rasync/core/serialize.h:34-47 | an integer written big-endian reads back, leaving what follows |
| `Serialize.BeDigit` | src/rasync/core/serialize.h:37-47 | most significant byte first: the k-th of n bytes is the value divided by 256^(n-1-k), modulo 256 |
| `Serialize.FailureIsSticky` | src/rasync/core/serialize.h:126-129 | a reader that has failed yields nothing more and never moves |
| `Serialize.BinaryWriter.Str16` | src/rasync/core/serialize.h:58 | the length prefix is truncated to 16 bits, the bytes are not |
| `Serialize.BinaryReader.Str16` | src/rasync/core/serialize.h:114-139 | a bounds-checked read of a length and that many bytes, or nothing |
| `Codec.WritePatch` | src/rasync/core/manifest.cpp:92-97 | the writer's loops append exactly the encoding |
| `Codec.EntryLayout` | src/rasync/core/manifest.cpp:16-22 | where each field of an entry stands: length, path, size, mtime in two's complement, mode, hash |
| `Codec.OneOfEach` | src/rasync/core/manifest.cpp:92-97 | a patch is its entries, counted in four bytes, and then its removals, counted in four bytes |
| `Codec.SignatureBytes` | src/rasync/core/delta.cpp:66-71 | where block size, file size, count and each block's weak and strong hash stand in a signature |
| `Codec.ReadPatchFrom` | src/rasync/core/manifest.cpp:105-130 | the reader's loops compute exactly the decoding and leave the cursor where it does |
| `Codec.PatchRoundTripExactly` | src/rasync/core/manifest.cpp:92-130 | a patch survives the wire, with what follows left unread, if and only if its paths are 1 to 65535 bytes and its counts fit 32 bits |
| `Codec.DecodedPatchEncodes` | src/rasync/core/manifest.cpp:105-130 | any bytes the patch decoder accepts are the encoding of what it returns, then what it left |
| `Codec.PatchDecoderAdvances` | src/rasync/core/manifest.cpp:105-130 | a decode, accepted or not, only moves the cursor on and never past the end, and fails without moving on a reader that has failed |
| `Codec.WriteSignature` | src/rasync/core/delta.cpp:66-71 | the writer appends exactly the signature's encoding |
| `Codec.ReadSignatureFrom` | src/rasync/core/delta.cpp:79-93 | the reader computes exactly the signature's decoding |
| `Codec.SignatureRoundTripExactly` | src/rasync/core/delta.cpp:66-98 | a signature survives the wire if and only if its block count fits 32 bits |
| `Codec.DecodedSignatureEncodes` | src/rasync/core/delta.cpp:79-98 | any bytes the signature decoder accepts are the encoding of what it returns, then what it left |
| `Codec.SignatureDecoderAdvances` | src/rasync/core/delta.cpp:79-98 | the same for signatures |
| `Codec.SavedManifestLoadsExactly` | src/rasync/core/manifest.cpp:37-58 | a saved manifest loads back as it was, what follows left unread, if and only if its paths are 1 to 65535 bytes and its entries fewer than 2^32 |
| `Fingerprint.ComputeFingerprint` | src/rasync/core/manifest.cpp:137-151 | the loop hashes exactly the pre-image |
| `Fingerprint.OneFileHashed` | src/rasync/core/manifest.cpp:140-147 | what one file adds to the hash: its path, then size, mode and hash at fixed places |
| `Fingerprint.PreImageNamesTree` | src/rasync/core/manifest.h:86-88 | with NUL-free paths and sizes below 2^56, hashed bytes are equal if and only if the trees are, up to mtimes |
| `Fingerprint.TopByteConfuses` | src/rasync/core/manifest.cpp:140-149 | for every byte, a size with that top byte and a path ending in it give two trees with no path in common that hash the same bytes |
| `Fingerprint.SizeBoundExactly` | src/rasync/core/manifest.cpp:140-149 | for every bound, all trees with NUL-free paths and smaller sizes are told apart if and only if the bound is at most 2^56 |
| `Fingerprint.NulPathsConfuseExactly` | src/rasync/core/manifest.h:86-88 | with any paths, no bound on sizes that admits a file at all is small enough |
| `Chunking.SendUpdate` | src/rasync/net/sync_session.cpp:411-447 | for any cap, zero included, the messages carry the patch's items in order, the first marked reset and all but the last marked more, each flushed as soon as it reaches the cap |
| `Chunking.EstimateIsExact` | src/rasync/net/sync_session.cpp:423-445 | a message is exactly 14 bytes more than the estimate the splitter paces by |
| `Chunking.MessagesAreBounded` | src/rasync/net/sync_session.cpp:411-447 | no message exceeds the cap, or one, by more than 67 bytes and its longest path |
| `Chunking.MessagesAreFew` | src/rasync/net/sync_session.cpp:411-447 | all messages but one are paid for by a full cap of entries |
| `Advert.SanitizedPatch` | src/rasync/net/sync_session.cpp:41-52 | dropping unsafe entries from a patch yields the safe part of what it would have made |
| `Advert.PartialUpdateIsInvisible` | src/rasync/net/sync_session.cpp:343-364 | a partly delivered update leaves the peer's tree and version alone and stages exactly what arrived |
| `Advert.WholeUpdateCommits` | src/rasync/net/sync_session.cpp:343-369 | the last chunk commits, at once, the safe part of the unsplit update |
| `AdvertSystem.SyncService.ApplyLocalPatch` | src/rasync/net/sync_service.cpp:144-152 | patches the tree and bumps the version, unless the patch is empty |
| `AdvertSystem.SyncSession.HandleManifestUpdate` | src/rasync/net/sync_session.cpp:336-369 | reset, staging, commit and in-place application, as the receiver's specification has them |
| `AdvertSystem.SyncSession.AdvertiseLocked` | src/rasync/net/sync_session.cpp:379-409 | skips on an unchanged version; otherwise sends a split of the full tree or of the difference, and remembers what it sent |
| `AdvertSystem.StepKeepsInvariant` | src/rasync/net/sync_session.cpp:336-447 | every step keeps the gate, what was last sent, and what each prefix of the channel would show the peer |
| `AdvertSystem.ReceiverShowsOneCompleteTree` | src/rasync/net/sync_session.cpp:336-447 | over every run, the peer's tree is the safe part of one complete advertised tree, and replaying what is in flight leads to the last one sent |
| `AdvertSystem.ReceiverNeverGoesBack` | src/rasync/net/sync_session.cpp:366-369 | the peer moves through the advertised trees in order |
| `AdvertSystem.SkippedAdvertisementIsSound` | src/rasync/net/sync_session.cpp:384-392 | whenever the version gate would skip, what was last sent is the tree as of the last completed change |
| `AdvertSystem.AdvertisedIsUpToDate` | src/rasync/net/sync_session.cpp:384-392 | after an advertisement with no change between reading the version and copying the tree the gate is closed |
| `AdvertSystem.UpdateIsTheDifference` | src/rasync/net/sync_session.cpp:394-409 | after the first, an advertisement carries one item for each path that differs from what was last sent, and resets nothing |
| `AdvertSystem.AtRestThePeerIsCurrent` | src/rasync/net/sync_session.cpp:379-447 | with nothing in flight and the gate closed, the peer knows exactly the safe part of the local tree |
| `EvalGate.Evaluator.Begin` | src/rasync/net/sync_session.cpp:584-591 | skips exactly on unchanged versions, and otherwise records them |
| `EvalGate.StepKeepsInvariant` | src/rasync/net/sync_session.cpp:570-602 | every step keeps the newest evaluation's copies equal to what was committed while its versions stand |
| `EvalGate.SkippedEvaluationIsSound` | src/rasync/net/sync_session.cpp:570-602 | whenever the gate would skip, the newest evaluation ran on exactly the trees a new one would, though it copied them one by one after reading the version |
| `EvalGate.UnchangedIsSkipped` | src/rasync/net/sync_session.cpp:585-588 | a second check of unchanged trees starts no evaluation, and one after work does not skip |
| `EvalGate.MirrorPersistsNothing` | src/rasync/net/sync_session.cpp:611 | in mirror mode no run persists a baseline |
| `EvalGate.BaselinesAgreeWithPeer` | src/rasync/net/sync_session.cpp:595-611 | over every run, each baseline persisted has the content of the peer tree it was judged against, but for copies the options keep though the peer deleted them; with deletions on, for none |
| `SendWindow.Sender.NoteSent` | src/rasync/net/sync_session.cpp:795-798 | counts bytes for the current transfer only |
| `SendWindow.Sender.HandleFileAck` | src/rasync/net/sync_session.cpp:812-821 | an ack only ever advances, and only the current transfer's |
| `SendWindow.Sender.WindowOpen` | src/rasync/net/sync_session.cpp:800-810 | the condition the sender waits for |
| `SendWindow.Sender.Begin` | src/rasync/net/sync_session.cpp:686-690 | a transfer starts with both counters at zero |
| `SendWindow.StepKeepsInvariant` | src/rasync/net/sync_session.cpp:717-821 | every step keeps bytes conserved, acks disciplined and the window respected |
| `SendWindow.WindowIsRespected` | src/rasync/net/sync_session.cpp:717-729 | over every run, bytes on the wire are at most a window and a chunk ahead of those acked, and acked is at most received is at most sent |
| `SendWindow.WideWindowNeverSticks` | src/rasync/net/sync_session.cpp:887-898 | with a window of at least the ack interval less one, no run leaves the sender waiting with both channels drained |
| `SendWindow.StuckExactlyBelowAckInterval` | src/rasync/net/sync_session.cpp:31 | a run that blocks forever exists if and only if the window is smaller than that |
| `SendWindow.EveryStepIsProgress` | src/rasync/net/sync_session.cpp:795-821 | a run is no longer than what it has left to send, receive and ack |
| `SendWindow.TransfersComplete` | src/rasync/net/sync_session.cpp:795-821 | with a window of at least the ack interval less one, every run is finite, and one that can go no further has delivered and acked everything |
| `FileTransfer.SendLiteral` | src/rasync/net/sync_session.cpp:770-783 | a literal run goes out in order, in messages of at most a chunk |
| `FileTransfer.ServeDelta` | src/rasync/net/sync_session.cpp:739-788 | the messages of a delta are a start, the scan's instructions split into chunks, and an end with the file's hash |
| `FileTransfer.ServeWhole` | src/rasync/net/sync_session.cpp:699-737 | a whole file goes out in chunks as far as the reads go, with the hash of just what was read; without a short read, that is the file |
| `FileTransfer.Session.HandleFileStart` | src/rasync/net/sync_session.cpp:825-871 | opens a transfer against the current copy, or declines an unsafe path or a missing base; on an xid that is open it leaves the new transfer without its temporary file's name |
| `FileTransfer.Session.HandleFileLiteral` | src/rasync/net/sync_session.cpp:873-899 | appends, digests, counts and acks a literal, or drops the transfer |
| `FileTransfer.LiteralMessagesAreLiteral` | src/rasync/net/sync_session.cpp:770-783 | no literal message is empty or larger than a chunk, which is what the send window assumes, and all but the last of a run are full chunks |
| `FileTransfer.Session.HandleFileCopy` | src/rasync/net/sync_session.cpp:901-927 | the buffered loop with short reads appends exactly the named range, or drops the transfer |
| `FileTransfer.Session.MoveReplace` | src/rasync/net/sync_session.cpp:136-169 | however each rename, the copy across devices and the removal turn out, the destination holds the moved file, or is gone with the move not done, or is as it was; without its name a file is never moved |
| `FileTransfer.Session.HandleFileEnd` | src/rasync/net/sync_session.cpp:929-1042 | verifies the digest, then puts the file in place, or fails to and may lose the old copy, or retries or gives up |
| `Landings.OnlyVerifiedContentLands` | src/rasync/net/sync_session.cpp:929-1023 | one message, any disk: a path's file changes only to content that met the announced hash, with an entry saying so, or vanishes by a failed move, with its entry as it was |
| `Landings.PresentExactly` | src/rasync/net/sync_session.cpp:136-169 | for any message sequence and any errors, a file is there afterwards if and only if it landed and was not lost since, or was there before and was never lost |
| `Landings.NamelessExactly` | src/rasync/net/sync_session.cpp:825-871 | an open transfer cannot be moved into place if and only if a start came on its xid while one was open, and one has been open ever since |
| `Landings.NothingVanishes` | src/rasync/net/sync_session.cpp:136-169 | from a peer that never reuses an xid, and with no move at an end failing after it dropped the old copy, no run of messages takes a file away, whatever else the disk does |
| `Landings.UnsafeIsNeverTouched` | src/rasync/net/sync_session.cpp:834-842 | for any message sequence and any errors, at a path the receiver considers unsafe the file and the entry are what they were, and no transfer to one is ever open |
| `Landings.CopyNeedsBase` | src/rasync/net/sync_session.cpp:913 | a COPY for a transfer without a base changes nothing |
| `Landings.RestartLosesFile` | src/rasync/net/sync_session.cpp:173-182 | start, start, data and a matching end on one xid, with no error, remove the copy that was there while its entry stays |
| `Landings.EveryRunIsVerified` | src/rasync/net/sync_session.cpp:825-1042 | for any message sequence, with errors anywhere, every file that is there is what it was, or content that met an announced hash, as its entry records |
| `Landings.OneRetryPerDelta` | src/rasync/net/sync_session.cpp:942-959 | over every run, a path is asked for again whole no more often than deltas were started for it |
| `FileTransfer.LiteralsAckAsTheWindowExpects` | src/rasync/net/sync_session.cpp:887-898 | on a literal the receiver's counters and acks move exactly as the send-window machine's receiver does |
| `FileTransfer.EndAcksAsTheWindowExpects` | src/rasync/net/sync_session.cpp:964-975 | the same at the end of a transfer that verifies |
| `Landings.EveryStartSettlesOnce` | src/rasync/net/sync_session.cpp:825-1042 | over every run, for each path: reservations released or kept for a retry, transfers still open, and transfers displaced by another start on their xid add up to the transfers started |
| `FileTransfer.OpsArrive` | src/rasync/net/sync_session.cpp:873-927 | for any instructions, consuming their messages appends exactly what streaming them rebuilds, or drops the transfer |
| `FileTransfer.StreamedIsPatchedExactly` | src/rasync/net/sync_session.cpp:915-926 | streaming rebuilds what the whole-buffer patcher does, exactly unless an empty COPY points past the base in an otherwise good delta |
| `FileTransfer.DeltaTransfer` | src/rasync/net/sync_session.cpp:825-1042 | a delta stream on a free xid places the content it rebuilds exactly when the announced hash matches, and otherwise leaves the tree alone |
| `FileTransfer.WholeTransfer` | src/rasync/net/sync_session.cpp:699-737 | a whole stream sent with its own hash lands on a free xid, whatever was there; on an open one it removes what was |
| `FileTransfer.DeltaWithoutBase` | src/rasync/net/sync_session.cpp:864-867 | a delta stream for a file that is not there changes no file and no entry, leaves nothing open, and hands the reservation back once |
| `FileTransfer.DeltaPullDelivers` | src/rasync/net/sync_session.cpp:739-788 | signature, scan, messages and receiver together deliver the sender's content |
| `FileTransfer.RetryRecovers` | src/rasync/net/sync_session.cpp:942-959 | whatever the delta did, a failed one is asked for whole, and the answer lands |
| `Pulls.PullWindow.ReservePlan` | src/rasync/net/sync_session.cpp:490-497 | reserves and queues each planned path not already reserved |
| `Pulls.PlanIsReserved` | src/rasync/net/sync_session.cpp:495-496 | after a plan all its paths are reserved and no others are, the queue goes on with those that were not, each once |
| `Pulls.PullWindow.NextRequest` | src/rasync/net/sync_session.cpp:506-527 | takes the oldest queued path exactly when the window has room |
| `Pulls.PullWindow.ReleasePull` | src/rasync/net/sync_session.cpp:555-561 | a released path is no longer reserved |
| `Pulls.StepKeepsInvariant` | src/rasync/net/sync_session.cpp:494-1048 | every step, a transfer failing midway included, keeps the reservations accounted for, each in one place |
| `Pulls.ReservationsAreConserved` | src/rasync/net/sync_session.h:194-198 | over every run, whatever transfers fail and when, reservations are the distinct queued paths and the paths in flight, each in exactly one place and at most the window, and each is released exactly once |
| `Pulls.RoomIsUsed` | src/rasync/net/sync_session.cpp:506-513 | in every state a run reaches with fewer than the window in flight, a path queued and the requester free, it may take one |
| `Pulls.EveryStepIsProgress` | src/rasync/net/sync_session.cpp:942-958 | every step but a new plan brings the end nearer, a transfer that breaks and a failed verification included |
| `Pulls.NothingIsStranded` | src/rasync/net/sync_session.cpp:623-627 | when nothing more can happen, no path still holds a slot |
| `Segments.MatchSegment` | src/rasync/core/ignore.cpp:12-29 | the backtracking loop ends, accepts only what the pattern means, and is exact on names without a star |
| `Segments.SegMatchIsSound` | src/rasync/core/ignore.cpp:12-29 | whatever the matcher accepts the pattern means, for every name |
| `Segments.SegMatchIsComplete` | src/rasync/core/ignore.cpp:17-22 | going back to the last star only is enough, unless both pattern and name hold a star |
| `Segments.NamesReadExactly` | src/rasync/core/ignore.cpp:15-16 | a name is matched as every pattern means if and only if it holds no star |
| `Segments.PatternsReadExactly` | src/rasync/core/ignore.cpp:15-16 | a pattern is matched as it means on every name if and only if it holds no star |
| `PathGlob.SplitPath` | src/rasync/core/ignore.cpp:31-40 | the collecting loop computes the segments |
| `PathGlob.SplitJoins` | src/rasync/core/ignore.cpp:31-40 | joining the segments gives the path back, and no segment holds the separator |
| `PathGlob.JoinSplits` | src/rasync/core/ignore.cpp:31-40 | segments without the separator are found again after joining |
| `PathGlob.MatchSegments` | src/rasync/core/ignore.cpp:43-57 | the loop with its recursion decides that a double star spans zero or more segments and anything else one |
| `PathGlob.GlobMatch` | src/rasync/core/ignore.cpp:61-68 | an anchored pattern is matched against the whole path, any other against each single segment |
| `PathGlob.MatchesAreCovered` | src/rasync/core/ignore.cpp:61-68 | every path matched is one the pattern covers |
| `PathGlob.AnyDepthExactly` | src/rasync/core/ignore.h:14-17 | a pattern without a slash matches the paths it would anchored between two double stars, if and only if it is not a lone double star on a path whose every name begins with two stars and goes on |
| `PathGlob.PathsReadExactly` | src/rasync/core/ignore.cpp:61-68 | a path is matched as every pattern means if and only if no name in it holds a star |
| `Ignore.IgnoreList.Matches` | src/rasync/core/ignore.cpp:99-107 | the verdict is that of the last rule that applies, and not ignored when none does |
| `Ignore.IgnoreList.Add` | src/rasync/core/ignore.cpp:70-85 | adds the rule a line states, if any, at the end, and keeps every rule nonempty and every unanchored one a single segment |
| `Ignore.LaterRuleWins` | src/rasync/core/ignore.h:11 | a rule added at the end overrides all before it wherever it applies |
| `Ignore.UnanchoredIsShorthand` | src/rasync/core/ignore.h:14-17 | a list filled from lines ignores what it would with every unanchored rule spelled out from the root, if and only if no lone double star meets a path it misses and would there have overturned the verdict of the rules before it |
| `Ignore.ReadLine` | src/rasync/core/ignore.cpp:70-85 | reads the rule a line states; its pattern is never empty, and unanchored only as a single segment |
| `Ignore.LineStatesRule` | src/rasync/core/ignore.h:10-16 | each combination of the documented marks around a pattern is read back as that rule |
| `Ignore.CommentStatesNothing` | src/rasync/core/ignore.h:10 | comments, blank lines and bare marks state no rule |
| `Ignore.ReturnIsDropped` | src/rasync/core/ignore.cpp:72 | a carriage return put at the end of a line that has none makes no difference |
| `Ignore.DirectoryMarkMeans` | src/rasync/core/ignore.h:12 | the mark for directories makes no difference on a directory, and rules that bear it say nothing about files |
| `Scan.OnPath` | src/rasync/core/scanner.cpp:87-91 | the loop up the chain decides membership |
| `Scan.ChildIsSmaller` | src/rasync/core/scanner.cpp:148-177 | entering a directory leaves fewer directories off the chain or, by name, fewer below: why the walk ends |
| `Scan.Visit` | src/rasync/core/scanner.cpp:140-215 | one entry pushes the directory it leads to, or stores its file with a reused or new hash, or is skipped |
| `Scan.Scan` | src/rasync/core/scanner.cpp:101-220 | the walk ends on every finite directory graph, finds exactly the files that walks from the root lead to, and counts exactly the hashes it did not reuse |
| `Scan.ScanIsTheTree` | src/rasync/core/scanner.cpp:101-220 | what is returned, told from the directories alone: an entry for each file reached that is readable or whose size and mtime are as cached, with that file's size, mtime and mode, and the cached hash or else its own |
| `Scan.VisitKeepsSettled` | src/rasync/core/scanner.cpp:140-215 | each entry's path is stored at most once, and nothing is found before or beside its turn |
| `Scan.RescanIsFree` | src/rasync/core/scanner.h:9-12 | scanning unchanged directories with the last result as the cache returns it and hashes nothing |
| `Scan.HashesAreTrueExactly` | src/rasync/core/scanner.cpp:203-212 | over any series of rescans with edits and transfers between them, every recorded hash is the file's if and only if no file changed content after it was last scanned or landed, before the next scan, and kept its size and mtime |
| `Scan.UnfollowedScanIsTheTree` | src/rasync/core/scanner.h:14-19 | without following, a path is found exactly when it runs through ordinary directories to an ordinary file, none ignored |
| `Scan.FollowedScanIsTheWalk` | src/rasync/core/scanner.cpp:145-190 | with following, a path is found exactly when it runs through directories, or links to directories not yet gone through, to a file or a link to a file, none ignored |
| `Scan.ReentersExactly` | src/rasync/core/scanner.cpp:151-157 | a walk enters a directory twice if and only if some link climbs to a directory from which plain subdirectories lead back to the chain |
| `Scan.SubdirectoryReentered` | src/rasync/core/scanner.h:28-34 | a directory with a link to its parent is scanned a second time below that link |

## Left out

- Sending hashes: SHA-256 and its first 16 bytes are arbitrary functions; a running digest is the bytes it has absorbed.
- `signature_of_file` reads a stream in blocks; `Delta.SignatureOf` is its in-memory twin.
- `apply_delta` adds a 64-bit offset and a length in machine arithmetic; `Delta.ApplyOps` uses unbounded integers, which differ only for offsets near 2^64.
- Convergence.QuietMeansConverged: both peers decide against one shared baseline, and no files are edited during the run; edits start a new run. Each peer saves its baseline on its own, so sharing it is a hypothesis.
- Convergence: planning a pull and the peer's reading of the file are one step, and the landing another; how the file travels is `FileTransfer`. One rule for safe paths serves both peers.
- Rounds: one peer; what the other sends for a reserved path is arbitrary. A scan reads files one by one and the manifest is told of each finding later, whatever it was; which findings the daemon's patch holds is `Manifests.RescanKeepsExactly`.
- Scan.HashesAreTrueExactly: what a transfer records is true of the file as it landed; that is `Landings.EveryRunIsVerified`.
- The service's one-line setters: in the machines a change of a tree and the bump of its version are steps of their own.
- AdvertSystem.SyncSession.HandleManifestUpdate: takes a decoded update; decoding is `Codec`, and a malformed one is dropped unread.
- The check that suppresses a second report of being in sync under the same fingerprint (`last_synced_fp_`): `EvalGate` lets every empty plan persist a baseline.
- The session's state is split into one class per machine (`AdvertSystem.SyncSession`, `EvalGate.Evaluator`, `SendWindow.Sender`, `FileTransfer.Session`, `Pulls.PullWindow`), each with the fields that machine uses; the machines' interplay is modelled only where a theorem above says so.
- SendWindow.TransfersComplete: one transfer whose receiver has not failed it; a failed transfer stops acking and the sender then waits until the session stops.
- FileTransfer.Session.HandleFileStart: temporary files are one name per xid, which a transfer may lose; that systems may refuse to remove a file that is open, the staging copy's own name, links at the destination and the pruning of directories are not modelled.
- Landings.EveryRunIsVerified: a file landing and the manifest being told of it are one step, and a base is what the destination held when its transfer began; edits while it is read are not modelled.
- Pulls.NothingIsStranded: one requesting and one serving peer; `send_gate` pacing and session stop are not part of it.
- Scan.Scan: the directories are a snapshot, so an entry gone between listing and probing is not modelled; the counters of files seen and of links skipped and followed are not kept; case folding of keys on Windows is not modelled. Paths are lists of names, which `PathGlob.JoinSplits` and `PathGlob.SplitJoins` identify with joined paths.
- Ignore: `add_lines` and `add_file` read text line by line into `Ignore.IgnoreList.Add`.
- librats (transport, discovery, encryption), the send gate, the router, authentication, the command line and the daemon around the rescan step.
- Several peers at once: every system here has two.
