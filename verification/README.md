# winluks, modelled and proved in Dafny

winluks opens a LUKS2 image, derives the volume key from a password and publishes the payload
as a decrypted block device. This project models that program and proves what its comments and
design promise: acknowledged writes are durable, failure is sticky, the LUKS metadata never
changes, and a session that ends well was closed in order.

## How it is built

**The device.** `Images` is the backing file: a visible copy, a durable copy, and marks for bytes
written since the last honoured sync. The operating system is any infinite sequence of answers
with finitely many interrupts: move everything, move a prefix, interrupt, fail, panic. `Sectors` cuts a transfer into 512-byte units
under a cipher that is any per-sector bijection (`XorCipherIsLawful` gives one). `Device` is the
critical section of a session as a machine that makes one operating-system call per step;
`Threads` interleaves any number of callback threads and the publishing thread over it.
`Durability` holds the invariant that ties the encrypted, partly synced file to a plain byte array
with the acknowledged writes laid over it, and `Runs` states the theorems about whole runs. The
methods of the program are classes in `Session` and `Adapter`: each contract says in the caller's
numbers what is refused and what a success did to the decrypted payload (`Outcomes`), and equates
the new state with the machine (`Volumes`); `Sequential` shows that state is one the machine reaches,
so the theorems hold of the methods. `Closings` leads every healthy session to a clean shutdown.

**The lifecycle.** `Shim` is the native bridge with a ledger of handles, `Serve` the publishing
loop, `Publication` several publisher processes interleaved call by call, each of which takes and
drops what the bridge does.

**What the device relies on.** `Json`, `Decimal`, `Fields` and `Metadata` (the checks),
`Documents` (what they accept, field by field and in no order), `Loading` and `Parsing` (the loops
of the parser, proved against it), `Headers` (the two binary headers),
`AntiForensic`, `Unlocking` (from an open image to a session, and back after a crash), `Probe` (the
filesystem checks), `Policies` (what they admit, bit by bit over `Bits`) and `Validation` (the checks
read through the session). Whatever the device assumes of
its offsets, sizes and key is proved here and handed over in `Unlocking.YieldsFits`; `Example`
exhibits an image, a cipher and a password for which all of this comes about, `Superblocks` an
accepted ext4 superblock and an accepted Btrfs payload.

## What turned out false

* A close attempt reports success although it was not orderly when a Win32 call fails and leaves
  `GetLastError` at zero. `Shim.MuteLockLooksClean` is such an attempt,
  `Serve.MuteLockEndsOk` a whole session that answers Ok after it, and `Shim.SuccessMeansOrderly`
  gives the exact condition. `Serve.WritableAnswers` therefore speaks of attempts that reported
  success, and the last of them was orderly if and only if none of its calls failed without
  leaving a code.
* In the same family, a mutex that is not created and leaves no code makes `wl_create` report
  success without a session, which `serve` then uses: `Shim.Bridge.Create` says when, and the model
  of `serve` ends in `Crashed`.
* ext4 acceptance does not make room for the tables of a last group that is not full:
  `Superblocks.LastGroupMayNotFit` gives an accepted superblock, and `Probe.EveryGroupHasRoom` says
  exactly when every group has room.

## Model

| member | source | states |
|---|---|---|
| Runs.CrashDurability | src/volume.rs:121-158 | Stop any run after any step, with any interleaving and any short, interrupted, failing or panicking call, and take any file the crash can leave: every acknowledged write lies in the volume, and the file decrypts to the initial payload with all of them laid over it in order, except inside at most one write of the whole session; no byte outside the payload and not the size has changed |
| Runs.Linearizable | src/volume.rs:65-102 | In every interleaving each successful read, at any offset, returned exactly the slice of the plain array made of all writes acknowledged before it in lock order, each of which lies in the volume; every answer lies inside the call it answers; a healthy session at rest holds that array |
| Runs.FailureIsSticky | src/volume.rs:131-172 | From a failed session with a free lock every continuation makes no operating-system call and no change to the file, answers every request, empty ones included, with an error, and never clears the failure |
| Runs.HolderMayFinish | src/volume.rs:92-98 | A failure set while a request is inside the critical section leaves only that request able to succeed or reach the file; once it has left, only errors are answered |
| Runs.CleanShutdown | src/adapter.rs:92-98 | When shutdown reports no failure, no callback is inside or can enter, none ever panicked, flush and transport were fine, every write that began is acknowledged, and any crash afterwards leaves exactly those writes |
| Closings.CleanShutdownReachable | src/adapter.rs:92-98 | From every healthy session at rest, with no callback inside and still serving, some steps reach a shutdown that reports no failure, so what CleanShutdown says of such an end can come about |
| Threads.NextSane | src/volume.rs:65-172 | Every step of every thread keeps the invariant: one callback at most in the critical section, a panic always leaves the lock poisoned, a drained session has no callbacks, each thread has one open request |
| Threads.StopRefuses | src/adapter.rs:40-61 | After the stop no request gets past its checks: it is answered Stopping, a write in a read-only session ReadOnly, and never takes the lock |
| Durability.CallInv | src/volume.rs:141-156 | Every single operating-system call, whatever it answers, keeps the relation between the file, the sync marks, the history and the plain array |
| Durability.AcquireInv | src/volume.rs:66-79 | Taking the lock and the checks behind it keep that relation and answer only what it allows |
| Durability.CrashKeepsAcknowledged | src/volume.rs:121-122 | From the invariant: whatever survives a crash holds every acknowledged write outside the one unacknowledged write |
| Durability.PlainLocal | src/crypto.rs:105-157 | Changing whole payload sectors of the file changes the decrypted array in those sectors only and nothing outside the payload |
| Durability.PlainBySector | src/crypto.rs:138-155 | Sector k of the decrypted payload is sector k of the file's payload, decrypted under the 16-byte little-endian number k |
| Durability.HealthyIsRested | src/volume.rs:131-157 | In every run, a healthy session at rest has nothing unsynced and nothing lost, so each of its writes is durable when acknowledged |
| Durability.AnswerIsSlice | src/volume.rs:77-101 | Rounding to sectors, decrypting and cutting yields the asked-for bytes of the whole decrypted payload, at any alignment |
| Durability.WriteSettles | src/volume.rs:141-157 | A finished transfer of encrypted sectors makes the decrypted payload the old one with the plaintext spliced in |
| Sequential.SoloIsRun | src/volume.rs:65-172 | What a method of the session does when called alone is a run of the interleaving machine with the same file, flags and history |
| Outcomes.SoloWrite | src/volume.rs:123-158 | A write is refused in a read-only session, then for more than 1 MiB, an end behind the volume or ragged sectors, then by a failed session, for exactly these reasons; any other is acknowledged, and then the decrypted payload is the old one with the data spliced in and, if nothing was unsynced before, durable, or its last call went wrong, the session has failed and the caller is told |
| Outcomes.SoloRead | src/volume.rs:65-102 | A read is refused by a failed session, for more than 1 MiB, beyond the volume, or when its sectors exceed 1 MiB, for exactly these reasons; any other answers the asked-for bytes of the decrypted payload, or its last call went wrong: then a writable session has failed and a read-only one goes on |
| Outcomes.SoloFlush | src/volume.rs:159-172 | A flush of a healthy session succeeds, in a writable one only with an honoured sync that makes every visible byte durable, or its last call went wrong and the session has failed |
| Volumes.FinishWrite | src/image.rs:153-175 | The whole write transfer of the image, checks and loop, is the sequence of machine steps from the length check to the sync |
| Volumes.FinishRead | src/image.rs:187-206 | The whole read transfer of the image is the sequence of machine steps from the length check to the answer |
| Volumes.FinishSync | src/image.rs:176-186 | The sync of the image is the machine's last phase; in a read-only session it makes no flush |
| Session.Volume.ReadAt | src/volume.rs:65-102 | Refused for exactly the reasons above, otherwise the asked-for bytes of the decrypted payload, or a call that went wrong and, in a writable session only, the fault that lasts; also the state of the machine serving this read alone |
| Session.Volume.ReadSpan | src/volume.rs:77-101 | From an accepted read to its answer; a failure faults the session only when it is writable |
| Session.Volume.WriteAt | src/volume.rs:123-158 | Ok if and only if the payload now has the data spliced in, synced before it is acknowledged; every refusal by its numbers, and a failed call leaves the session failed; also the state of the machine serving this write alone |
| Session.Volume.FlushAll | src/volume.rs:159-172 | Ok of a healthy session unless the last call went wrong; in a writable one Ok means the sync was honoured; also the state of the machine serving this flush alone |
| Session.Volume.MarkFaulted | src/volume.rs:118-120 | Sets the fault flag without the lock |
| Device.SpanFits | src/volume.rs:77-87 | The sector-rounded span of an in-range read covers it and stays inside a volume of whole sectors |
| Device.NoReadOverflows | src/volume.rs:77-91 | No in-range read of an unlocked volume reaches a 64-bit overflow refusal |
| Images.WriteIsPrefix | src/image.rs:163-174 | Under any answers a write leaves exactly a prefix of its buffer in place; it succeeds if and only if the prefix is everything |
| Images.WriteEnds | src/image.rs:163-174 | For every infinite sequence of answers with finitely many interrupts the write loop ends, after at most one call for every interrupt to come and one for every byte left |
| Images.ReadEnds | src/image.rs:194-205 | The same of the read loop |
| Images.ReadIsExact | src/image.rs:194-205 | A read succeeds if and only if every byte was moved, and then returns the visible bytes |
| Images.WriteOutcome | src/image.rs:153-175 | A write of the image puts all its bytes in place unless its last call went wrong; interrupts of the transfer never make it fail |
| Images.SyncOutcome | src/image.rs:176-186 | A sync is honoured, in a read-only session without a flush, unless its last call went wrong |
| Images.Image.WriteAllAt | src/image.rs:153-175 | Ends for every infinite sequence of answers with finitely many interrupts; the bytes in front of the ones moved are in place and all others untouched; Ok exactly when all moved, otherwise its last call went wrong or it was refused |
| Images.Image.ReadExactAt | src/image.rs:187-206 | Ends for every infinite sequence of answers with finitely many interrupts; the buffer holds the file bytes up to what was filled and is untouched behind |
| Images.Image.Sync | src/image.rs:176-186 | Honoured unless its last call went wrong; a failed flush is not retried, and what was dirty is not vouched for by a later one |
| Sectors.CryptSectors | src/crypto.rs:122-157 | Refuses exactly the wrong key sizes, ragged or oversized transfers and index overflows; otherwise sector k of the result is sector k of the input under the tweak whose first eight bytes are the little-endian number of the sector and whose others are zero |
| Sectors.CryptIsSectorBySector | src/crypto.rs:138-155 | The same of the function the laws below speak of, which fixes it byte for byte |
| Sectors.TweakIs | src/crypto.rs:139-145 | The tweak of a sector is the one 16-byte string that reads as its number |
| Sectors.CryptConcat | src/crypto.rs:122-157 | Transforming a concatenation is concatenating the transforms, the second with its first sector shifted |
| Sectors.CryptSplice | src/crypto.rs:105-157 | Replacing whole sectors of the input replaces exactly those of the result |
| Sectors.CryptWindow | src/crypto.rs:122-157 | A whole-sector window of the result is the window transformed on its own |
| Sectors.SectorOfCrypt | src/crypto.rs:138-155 | Sector k of the result depends on sector k of the input and its index alone |
| Sectors.CryptInverts | src/crypto.rs:106-120 | Decryption undoes encryption and the other way round, at any length |
| Sectors.XorCipherIsLawful | src/crypto.rs:122-157 | There is a cipher that meets the law for every key and tweak, so nothing rests on an empty assumption |
| Sectors.IvInjective | src/crypto.rs:139-145 | Distinct 64-bit sector numbers give the cipher distinct tweaks |
| Adapter.BlockAdapter.Read | src/adapter.rs:40-50 | Refuses after the stop and for unaddressable blocks without touching the session, counts, and otherwise serves the read at 512 times the block number |
| Adapter.BlockAdapter.Write | src/adapter.rs:51-61 | Counts every attempt; read-only, then stopping, then unaddressable are refused in this order, otherwise serves the write at 512 times the block number |
| Adapter.BlockAdapter.Unmap | src/adapter.rs:62-69 | Never served; counted, and refused by mode |
| Adapter.BlockAdapter.Flush | src/adapter.rs:70-90 | Flushes exactly when the named range lies in the device, a count of zero meaning up to its end; otherwise nothing changes |
| Adapter.BlockAdapter.Shutdown | src/adapter.rs:92-98 | Final flush, stop, drain of the callbacks already inside, then the fault flag: the verdict is false if and only if the flush succeeded, the transport gave zero and nothing is faulted after the drain; then the session was healthy before and is not poisoned. A healthy session with nothing pending and transport zero is told false, unless a call went wrong |
| Adapter.SoloFlags | src/adapter/windows.rs:111-119 | Serving a request poisons the lock exactly when it unwinds, and never clears the fault flag |
| Adapter.ReadCb | src/adapter/windows.rs:81-121 | The status is 0 for success, 1, 2, 3, 6 for ReadOnly, InvalidRange, Stopping, UnsupportedOperation, 5 for WritebackFailed and a panic, 4 for the rest, each if and only if; the buffer holds the answer on 0 and zeros otherwise, bytes behind it are untouched; a panic faults the session |
| Adapter.WriteCb | src/adapter/windows.rs:122-141 | The status, by the same numbers, is that of the write of the buffer's bytes, whose outcome is the one of Outcomes; a panic faults the session and answers 5 |
| Adapter.ControlCb | src/adapter/windows.rs:142-160 | Flush and unmap by code, any other code refused without touching the session; the status by the same numbers; a panic faults the session |
| Adapter.CodeReports | src/adapter/windows.rs:70-80 | The status of every outcome, number by number |
| Shim.Bridge.Create | native/winspd_shim.c:113-152 | Publishes if and only if every step succeeds, taking heap, guard, unit and dispatcher in this order; any failure gives everything back in the opposite order, a name in use is busy, and zero is reported only for a mutex that fails without a code |
| Shim.Bridge.FindVolume | native/winspd_shim.c:176-200 | Comes back with a volume if and only if exactly one carries the session's serial, and keeps no other handle; none and several are told apart |
| Shim.Bridge.LockAndDismount | native/winspd_shim.c:222-253 | The search only opens and closes handles; then code, phase and calls are those of the report of module Shim; the handle of the found volume is kept if and only if the attempt went all the way, and a second attempt after that is a success that calls nothing |
| Shim.Bridge.Close | native/winspd_shim.c:254-268 | Shut down, wait, look again, delete the unit, then the locked volume, then the guard; nothing is held afterwards, and an abort caused by the shutdown itself is no error |
| Shim.SuccessMeansOrderly | native/winspd_shim.c:222-253 | When failing calls leave a code, success is reported if and only if the session's own volume was writable before and after the lock, then flushed, then dismounted; in general, the exact condition under which the report is wrong |
| Shim.ReportByCase | native/winspd_shim.c:222-253 | Code and phase of an attempt by the first thing that went wrong, in numbers: a look at the mode, a lock on a volume gone read-only, the lock, the second look, the flush, the dismount |
| Shim.AttemptDiscipline | native/winspd_shim.c:222-253 | Nothing is flushed without a granted lock between two good looks, nothing dismounted without a good flush; a granted lock is given back exactly when the attempt fails later, and a failed attempt ends by closing the volume it found |
| Shim.RetryableMeansBusy | src/adapter/windows.rs:213-219 | An attempt is retried if and only if the lock was refused with 5, 32, 33 or 170 on a volume that stayed writable, and then nothing was flushed or dismounted |
| Shim.MuteLockLooksClean | native/winspd_shim.c:233-238 | A lock refused without an error code is reported as a clean close |
| Serve.Run | src/adapter/windows.rs:161-248 | Exit, close attempts and outcome of the discovery are those of the specification Served, whose answers the rows below fix; every end has released every handle |
| Serve.WritableAnswers | src/adapter/windows.rs:196-247 | A published RW session that ends answers UncleanClose if and only if its last close attempt did not succeed or anything went wrong while shutting down, VolumeDiscoveryFailed if and only if neither holds and the volume never came up, and Ok if and only if neither holds and it did; with Ok every earlier attempt was refused as busy, and the last was orderly if and only if none of its calls failed without a code |
| Serve.ReadOnlyAnswers | src/adapter/windows.rs:196-247 | A published RO session never tries to lock the volume; its answer is fixed by the discovery and the shutdown |
| Serve.OnlyBusyIsRetried | src/adapter/windows.rs:207-219 | One attempt that failed in any way but as busy ends the session as UncleanClose |
| Serve.MuteLockEndsOk | src/adapter/windows.rs:207-212 | A whole RW session answers Ok although its only lock was refused and nothing was flushed or dismounted |
| Serve.Publish | src/adapter/windows.rs:196-222 | The session stays published exactly as long as there is no error, no fault and every Ctrl+C met a busy lock; the attempts are those asked for, and the round that ends it decides clean or marked; also those of its specification |
| Serve.Discover | src/adapter/windows.rs:185-195 | Waits exactly as long as the volume is not ready and neither deadline nor error nor fault nor Ctrl+C ends it, and returns the last answer |
| Serve.SuccessClosedOrderly | src/adapter/windows.rs:207-219 | The last attempt of a successful session was orderly and all before it were refused locks on a volume seen writable twice |
| Serve.SuccessIsDurable | src/adapter/windows.rs:230-247 | When what serve observes is what a run of its callbacks came to, an RW answer of Ok means: close attempts refused as busy and then one that succeeded, orderly if and only if none of its calls failed without a code; and every write that ever began is acknowledged and survives any later crash |
| Publication.NextInv | native/winspd_shim.c:119-151 | Any call of any process keeps at most one owner of the guard and makes each process hold exactly what its place says |
| Publication.OnePublisher | native/winspd_shim.c:122-152 | Over every interleaving of any number of processes and every failure: at most one unit exists, its process holds the guard, nothing is taken or released twice, and a process that has left holds nothing |
| Publication.ReleaseOrder | native/winspd_shim.c:254-268 | In every run no step drops the locked volume while the unit exists, none drops the guard while unit or volume are held, and none deletes the unit while its dispatcher runs |
| Publication.CreateIsProgram | native/winspd_shim.c:113-152 | However its calls come out, wl_create takes and drops what one process of the interleaved model does, and ends published or where it began |
| Publication.LockIsProgram | native/winspd_shim.c:222-253 | A close attempt changes what a published session holds by the one step of a process that takes the volume if it went all the way, and by nothing otherwise |
| Publication.CloseIsProgram | native/winspd_shim.c:254-268 | wl_close drops what one process of the interleaved model does on its way out, with and without a locked volume |
| Publication.SecondIsRefused | native/winspd_shim.c:123-129 | While a unit exists, a process that asks for the guard is refused |
| Json.StrictIsStrictTree | src/strict_json.rs:9-15 | The visitor's recursion accepts exactly the trees in which no node is a float or an integer wider than 64 bits, repeats a key or lies deeper than 32 |
| Json.ParsedIsShallow | src/strict_json.rs:9-67 | The values the parser can return are exactly those of bounded depth whose integers are signed or unsigned ones of 64 bits |
| Json.FieldsKeepEntries | src/strict_json.rs:49-58 | An accepted object keeps every key with its value and has no other |
| Json.VisitSeq | src/strict_json.rs:42-48 | The list loop returns all items in order, or the error of the first bad one |
| Json.VisitMap | src/strict_json.rs:49-58 | The object loop returns the value of the tree if it is strict and an error otherwise |
| Json.Parse | src/strict_json.rs:60-67 | Accepts exactly the strict trees and returns their value |
| Decimal.ParseInvertsPrint | src/metadata.rs:39-45 | A text parses to n if and only if it is the decimal notation of n, for every 64-bit n: parsing and printing are inverse and nothing else parses |
| Decimal.IdsAreCanonical | src/metadata.rs:61-67 | Two names with the same id are the same name |
| Fields.Ids | src/metadata.rs:68-78 | Accepts exactly arrays of distinct canonical ids and returns them in order |
| Documents.KdfIsSpec | src/metadata.rs:86-118 | Parameters come out if and only if the object has exactly the fields of its kind with those values, within every cost limit |
| Fields.AffordableDerives | src/crypto.rs:51-77 | Parameters within the limits pass every check of the derivation for every size asked of it |
| Documents.ConfigIsSpec | src/metadata.rs:230-262 | A region size comes out if and only if the config names the JSON area size and that region, at most 128 MiB in whole pages, and asks for no flag and no requirement |
| Documents.SegmentIsSpec | src/metadata.rs:285-322 | A segment comes out if and only if it is of type crypt under aes-xts-plain64 with 512-byte sectors and tweak zero, without flags, not empty, in whole sectors, behind the keyslot region and inside the image |
| Documents.KeyslotIsSpec | src/metadata.rs:329-388 | A keyslot comes out if and only if it is of the one supported kind and its area is in whole pages inside the region, of at most 64 MiB, with room for all stripes of its key |
| Documents.DigestIsSpec | src/metadata.rs:403-432 | A digest comes out if and only if it is an affordable PBKDF2 one of a fitting length over distinct canonical keyslots and no segment but the one |
| Loading.Keyslots | src/metadata.rs:323-389 | In any visiting order: succeeds if and only if every name and keyslot is good and no two areas meet, and returns the keyslots by number, none overwritten |
| Loading.Tokens | src/metadata.rs:390-397 | Succeeds if and only if every token has a canonical id and is an object |
| Loading.Digests | src/metadata.rs:398-455 | In any visiting order: succeeds if and only if every digest is good, names only keyslots there are, and none is bound twice; returns exactly the bound ones |
| Documents.AcceptedPasses | src/metadata.rs:224-461 | Every document that meets the conditions field by field passes all the checks |
| Documents.PassesIsAccepted | src/metadata.rs:224-461 | Every document that passes all the checks meets the conditions field by field |
| Parsing.FromJson | src/metadata.rs:224-461 | Succeeds if and only if the document meets the field-by-field conditions of some reading of it, and returns the metadata of one |
| Parsing.AcceptsOne | src/metadata.rs:224-461 | A document has at most one reading and one metadata, so the visiting order cannot matter |
| Parsing.Geometry | src/metadata.rs:263-372 | Both headers, all keyslot areas and the payload are pairwise disjoint, in this order and inside the image, with no 64-bit wrap |
| Parsing.Binding | src/metadata.rs:402-455 | The slots are exactly the keyslots bound to the one segment, each by exactly one digest, and each fits what unlocking does with it |
| Example.Unlockable | src/volume.rs:29-55 | A concrete image, cipher and password unlock to a session, so the conditions of the theorems on unlocking and reopening can be met |
| Example.Accepted | src/metadata.rs:224-461 | A concrete document with one bound keyslot is accepted |
| Headers.PaddedIsPadded | src/metadata.rs:119-128 | A fixed field decodes if and only if it is one zero-free text with only zeros, at least one, behind |
| Headers.HeaderAtIsHeader | src/metadata.rs:140-198 | Reading in the order of the program finds a header exactly where a block has the magic, version 2, a power-of-two size from 16 KiB to 4 MiB, its own offset, zero areas, text fields, UUID, the checksum over the block with bytes 448 to 512 cleared, and strict JSON from 4096 on |
| Headers.ReadHeader | src/metadata.rs:140-198 | Returns the header of the file, with the error of its first failing check, unless its last call went wrong, which asks for recovery |
| Images.ReadOutcome | src/image.rs:187-206 | A read gives the visible bytes unless it lies outside the file or its last call went wrong; interrupts of the transfer never make it fail, only one of the length check does |
| Headers.ReadMetadata | src/metadata.rs:210-223 | What is returned is the metadata both headers of the file agree on, and unless the last call went wrong it is found if and only if there is any |
| AntiForensic.AfMerge | src/crypto.rs:160-182 | For key and digest sizes in any mix: there are 4000 states, zeros first, each next one the hash of the last with a stripe mixed in, and the key is the last one with the last stripe mixed in; refuses exactly the wrong sizes |
| AntiForensic.DiffuseInto | src/crypto.rs:169-176 | Each block of 32 or 64 bytes is replaced in place by the hash of its four-byte big-endian number and itself, a short last block included |
| AntiForensic.MergeInvertsSplit | src/crypto.rs:159-182 | For any hash and any 3999 stripes the merge yields the key if and only if the last stripe is the one a split chooses |
| Unlocking.FileFits | src/metadata.rs:312-372 | The payload of any file with metadata is not empty, whole sectors, inside the file and behind every keyslot area read |
| Unlocking.MetadataOne | src/metadata.rs:210-223 | A file has at most one metadata |
| Unlocking.MetadataLocal | src/metadata.rs:210-223 | Files of one size that agree in front of the payload have the same metadata |
| Unlocking.YieldsFits | src/volume.rs:47-54 | The constants of an unlocked session satisfy all the device needs; every checked range maps inside the image and behind the keyslots |
| Unlocking.OpenSlot | src/volume.rs:37-45 | For accepted metadata no size or cost check can fail: the key comes out if and only if what is derived from it equals the digest of the slot, and UnlockFailed if and only if it differs, unless the last call went wrong |
| Unlocking.Unlock | src/volume.rs:29-55 | A session comes out only with the offsets of the metadata and the key the password recovers, whose derivation equals the digest of the slot; unless the last call went wrong, a long password, bad UTF-8, an unknown slot and a differing digest give exactly ResourceLimit, UnlockFailed, UnsupportedProfile and UnlockFailed, in this order |
| Unlocking.RecoveredKeyRecovers | src/volume.rs:37-42 | The recovered key is what 4000 stripes merge to, read from the area of the slot and decrypted sector by sector, counted from zero, under what the password derives |
| Unlocking.KeyRoundTrip | src/volume.rs:37-42 | Any key, split with any stripes and encrypted under any password, comes back under that password |
| Unlocking.Reopen | src/volume.rs:121-158 | After any run and crash the file has the same metadata, every keyslot answers every password as before, and the payload is the acknowledged one but for one write under way |
| Probe.MirrorGate | src/probe.rs:24-40 | Accepted are exactly the volumes whose primary is in range and whose in-range superblocks all meet the policy and agree with it |
| Policies.BtrfsIsPolicy | src/probe.rs:152-207 | btrfs_at accepts exactly the superblocks with these values at these offsets, among the feature flags only those named bit by bit |
| Policies.BtrfsGate | src/probe.rs:24-40 | A Btrfs volume is accepted if and only if it has a superblock at 64 KiB and every one at 64 KiB, 64 MiB or 256 GiB inside it meets that policy and is the primary byte for byte but for checksum and address |
| Probe.ConsumerSeesOneCommit | src/probe.rs:27-37 | Whichever superblock a consumer takes as newest has the bytes of the primary outside checksum and address, the same generation, and meets the full policy |
| Bits.JoinIsSum | src/probe.rs:97 | Joining a low word with a shifted high word is their sum |
| Probe.WideIsCount | src/probe.rs:128-142 | Each 64-bit count reads as the number it stands for, with and without the feature |
| Probe.SizesAreGeometry | src/probe.rs:98-145 | The checks on 64-bit numbers hold if and only if the geometry holds over unbounded ones: no product wraps unnoticed |
| Probe.Ext4IsGeometry | src/probe.rs:44-147 | ext4 accepts exactly the supported features with a sound geometry, whose number of groups covers the blocks without a wholly unused group |
| Policies.Ext4IsFields | src/probe.rs:44-89 | The checks on features and fixed fields pass for exactly the superblocks with these values and no other feature bit than those named |
| Policies.Ext4Gate | src/probe.rs:44-147 | An ext4 volume is accepted if and only if the superblock at 1024 has those fields, the widths of its descriptors and a sound geometry |
| Probe.InodeHasPlace | src/probe.rs:113-124 | Every inode number has a slot in an existing group and is recovered from it |
| Probe.PlaceHasInode | src/probe.rs:113-124 | Every slot of every group belongs to exactly one inode number within the count |
| Probe.TablesFit | src/probe.rs:113-116 | The bitmaps and inode tables of all full groups together fit in the block count and the volume, and at most one group is not full |
| Probe.EveryGroupHasRoom | src/probe.rs:113-124 | In an accepted superblock every group has room for its own tables if and only if the blocks divide evenly into groups or the remainder holds one set |
| Superblocks.LastGroupMayNotFit | src/probe.rs:113-116 | Under every checksum function there is a superblock, its checksum included, that is accepted although its one group has no room for its own tables |
| Superblocks.PayloadIsGood | src/probe.rs:24-40 | Under every checksum function there is a Btrfs payload that is accepted and has a newest superblock to consume |
| Validation.ProbeRead | src/volume.rs:103-104 | A probe read answers with the decrypted payload, or is refused by a failed session, and changes no byte of the file |
| Validation.Mirrors | src/probe.rs:29-38 | The mirror loop, reading through the session, gives the verdict of the policy on the decrypted payload |
| Validation.Validate | src/volume.rs:103-109 | The verdict is that of the policy on the decrypted payload unless the last call went wrong, and then it is never an acceptance |

## Left out

- Parsing.FromJson: does not say which error a rejected document gives, because a document with several faults gives the one its visiting order meets first.
- Unlocking.Unlock: fails for an image without metadata but does not fix which error that is; neither does it when a call goes wrong before the slot is opened. It is the error of the metadata read.
- Serve.Run: the flush outcome and the fault flag after the drain are inputs; Serve.SuccessIsDurable ties them to a run of the callbacks.
- Serve.Discover: no claim that polling ever ends; deadlines, sleeps and Ctrl+C are inputs.
- Adapter.BlockAdapter.Shutdown: takes the callbacks inside the drain one after the other; their interleavings are in Threads.
- Volumes.Finish: answers with endlessly many interrupts, under which the transfer loops do not end, are not modelled.
- Probe.ConsumerSeesOneCommit: a consumer that looks at a mirror beyond the three offsets the check reads, in a very large volume, is outside the claim.
- Publication.OnePublisher: a process that is killed is not modelled; the system then closes its handles.
- AES-XTS, SHA-2, PBKDF2, Argon2, CRC-32C, base64, UTF-8, UUID and JSON tokenizing are values of the right shape; nothing is claimed about their strength, their internal failures or their memory.
- Allocation failures, the 120-second derivation deadline, memory locking, zeroizing and constant-time comparison.
- The consumer check before publication, which always refuses ext4, is one input of `Serve.Run`.
- Opening the image, sharing flags, path, drive, registry, service and driver-hash checks; the volume name strings and serial parsing of the enumeration are one yes-or-no answer per volume.
- A file whose length changes is one failed length check; a cross-process change of its bytes is not modelled.
- Null context and null buffer pointers of the callbacks.
- SCSI sense data, device identification strings and the command line.
- Out-of-range blocks refused before a request exists are answered without an entry in the history.
- Behaviour of WinSpd, WinBtrfs and the medium beyond the call results the program sees; what applications flush is theirs.
- FindFirstVolume failing without a code is taken to leave an unusable handle, on which the mode query answers ERROR_INVALID_HANDLE.
