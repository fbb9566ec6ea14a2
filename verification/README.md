# Quil: protocols and codecs, modelled and proved

Quil is a terminal multiplexer. This project models the parts of it whose correctness is a matter of
protocol, state or arithmetic rather than of wiring, in Dafny 4.11, and proves what their comments and
tests promise. `dafny verify dfyconfig.toml` checks everything.

How the model is made:

- Code that changes things step by step is a method over a class or an array, proved against a
  specification; what is promised is then proved about the specification for every run.
- The file system is a `Disk`: a map from path to node on which each operating-system call is one atomic
  step that may fail for a reason of its own. It keeps the sequence of all states it was in, so "killed
  anywhere" is "left in any state of that sequence".
- Processes and goroutines that share files or a mutex are state machines: one step per file operation or
  critical section, arbitrary interleavings, proofs by an invariant over every run.
- Clocks, randomness, peers, process liveness, the Unicode tables, HMAC and SHA-256 are parameters or free
  choices. Nothing is assumed of the two hash functions but that they give 32 bytes.

| part | modules |
|---|---|
| crash-safe replacement of executables, update of the pair | `FileSystem`, `BackupSlots`, `BinSwap`, `BinSwapRuns`, `UpdateApply` |
| pid-file lock | `PidLock`, `PidLockRuns`, `PidLockLimits` |
| token login and token store | `Hexadecimal`, `Base64Url`, `Token`, `Scram`, `ClientLogin`, `TextOrder`, `TokenStore` |
| session records of hook processes | `SessionRecord`, `SessionHooks` |
| single-flight dialling of hosts | `HostConn`, `HostDialRuns` |
| bitmap decoder | `Dib`, `DibEncoding` |
| token scanner over a stream | `TokenCapture` |
| prompt and title sanitizers | `Runes`, `PromptText`, `TitleText` |
| TOML printer and the hook override | `Decimals`, `Hexadecimal`, `Toml`, `CodexOverride` |
| three-way configuration merge | `ConfigMerge` |
| output coalescer, audit budget | `Coalescer`, `AuditBudget` |

## Where the code does not do what its comments say

- The pid-file lock is not exclusive. Its comment admits the race of two reclaimers of one dead holder
  (`PidLockRuns.DoubleTakeover`), but two holders are also reachable with no holder dead: a process exits
  right after releasing while another is judging its pid (`PidLockRuns.ExitWhileJudged`), or a judgement
  takes longer than the stale window (`PidLockRuns.SlowJudgement`). `PidLockRuns.OwnershipLostIffRobbed`
  says which step loses the lock. Two rules for callers keep it: anybody may try at any time, but no holder
  dies, every holder's pid is written and its file deleted again, and nobody exits while it is judged; or one
  process at a time tries, and holders may die anywhere and leave their files behind.
  `PidLockLimits.ExclusiveIff` proves, for every run from a free lock and either rule, that the lock is
  exclusive if and only if the rule's times fit the stale window: holding plus judging for the first,
  holding for the second.
- The coalescer's batches are not "at most coalesceMaxBytes". A batch is below the cap but for its last
  chunk; the comment's bound holds for all runs over chunks of at most m bytes if and only if m is at most 1
  (`Coalescer.CapHoldsIff`).
- A session record longer than 8 KiB comes back with its path cut off, a path nobody reported
  (`SessionRecord.LongPathComesBackCut`). `SessionRecord.IdFileExactIff` gives the exact condition.
- A height field of -2^31 slips past the dimension cap of the bitmap decoder, because its negation wraps;
  the extent computed from it is then larger than any slice, so it is rejected there
  (`Dib.WrappedExtent`, `Dib.DecodeDib`).
- The backoff branch of `connect` releases a client it never has (`HostDialRuns.EnterCases`).

## Model

| member | source | states |
|---|---|---|
| `BackupSlots.SlotsApart` | internal/binswap/binswap.go:27-34 | neither the target nor its staging file is one of the backup slots |
| `BackupSlots.SlotsDistinct` | internal/binswap/binswap.go:27-34 | the 21 slots are 21 different paths |
| `BackupSlots.FamiliesApart` | internal/binswap/binswap.go:27-34 | no path of `quil` (target, slots, staging) is a path of `quild`, whatever the common suffix |
| `BinSwap.RestoreMissing` | internal/binswap/binswap.go:98-128 | an existing target is left alone; else exactly the newest regular backup, first of equals, is renamed back; only a backup whose stat call failed can make it restore another one |
| `BinSwap.RepairTakesFirstOfNewest` | internal/binswap/binswap.go:110-120 | the backup taken is exactly the one that is newer than all in earlier slots and not older than any in later ones |
| `BinSwap.RepairIsExact` | internal/binswap/binswap.go:98-128 | if one backup is strictly newest, the loop over the slots picks that one |
| `BinSwap.FreeBackupPath` | internal/binswap/binswap.go:36-58 | with every stat call answered, clears and answers the canonical slot, or the next one for each delete that is refused, and deletes nothing else; answers none only if all 21 stay occupied |
| `BinSwap.CopyBytes` | internal/binswap/binswap.go:179-182 | a copy that succeeds has all the bytes of a regular source, one that fails met a fault or a source that is not regular; only the staging file changes meanwhile |
| `BinSwap.CopyFileMode` | internal/binswap/binswap.go:156-197 | in every state the destination is what it was or the complete copy with the asked mode; when nothing but renames fails, two have to; a failure changes at most the staging file, and leaves none unless its delete is refused |
| `BinSwap.SwapPresent` | internal/binswap/binswap.go:71-96 | every state of the swap is intact; the outcome is the new binary with the old one in the answered slot, or the old one in place, or the old one in the slot the error names |
| `BinSwap.SwapOne` | internal/binswap/binswap.go:60-96 | the same after the repair of an interrupted swap, for any target; with no failing call the result depends on the files alone and a swap is done unless all 21 slots are pinned; with no delete refused the backup is in the canonical slot; stranding needs a fault |
| `BinSwap.NeverPartial` | internal/binswap/binswap.go:60-96 | in every state of a swap the old binary is complete at the target or a slot, and the target never holds a part of a binary |
| `BinSwap.KilledSwapIsRepaired` | internal/binswap/binswap.go:98-128 | killed anywhere in a swap of the strictly newest binary with the target missing, the repair puts back exactly the binary that was live |
| `BinSwap.RemoveBackups` | internal/binswap/binswap.go:130-148 | deletes backups only, and nothing unless the target is there as a regular file; beside one, a backup stays only if its delete was refused |
| `BinSwapRuns.SwapKeepsHealthy` | internal/binswap/binswap.go:60-96 | every state of a swap again has one strictly newest binary, the live one if there is one, and only complete binaries |
| `BinSwapRuns.RepairKeepsHealthy` | internal/binswap/binswap.go:98-128 | the repair of such a state has a live binary, the strictly newest one |
| `BinSwapRuns.RepairHealthyIff` | internal/binswap/binswap.go:98-106 | restoring a backup keeps that if and only if it is the newest one |
| `BinSwapRuns.SweepKeepsHealthy` | internal/binswap/binswap.go:130-148 | so has every state of a sweep |
| `BinSwapRuns.PerformOrDie` | internal/binswap/binswap.go:60-148 | a swap, a repair or a sweep, killed at any point or not, keeps all that; if no call fails and it is not killed, it does its work |
| `BinSwapRuns.Life` | internal/binswap/binswap.go:60-148 | so does any sequence of them, each killed anywhere, in every state ever reached, whatever calls fail, as long as no repair overlooks a backup; if no call fails, each that is not killed does its work |
| `UpdateApply.SwapPair` | cmd/quil/update_apply.go:127-167 | both binaries are the staged ones with the old modes, or both are the old ones in place, or the error names the backup holding the old one; in every state in between each binary that was live is complete at its target or a slot and no target holds a part of one; without a fault no rollback fails; when no call fails the update is applied, the declared helpers with it |
| `UpdateApply.SwapSecond` | cmd/quil/update_apply.go:142-155 | a failed second swap renames the first backup back, or the error names it |
| `UpdateApply.OutcomeKeepsOld` | internal/binswap/binswap.go:86-95 | after a failed swap the old binary is at the target unless the error names its backup |
| `UpdateApply.InstallOptional` | cmd/quil/update_apply.go:179-289 | nothing changes outside the paths of optional binaries that the manifest declares; if no failure is reported and every stat call was answered, each that was staged and declared is installed; only a failing call makes a failure |
| `UpdateApply.InstallOne` | cmd/quil/update_apply.go:250-286 | a first install has the default mode and leaves nothing behind when it fails; a replacement inherits the mode and keeps the old binary aside, and a failed one keeps it in place unless renaming it back fails too; only a failing call makes it fail |
| `UpdateApply.OptionalLeavesPair` | cmd/quil/update_apply.go:156-166 | the optional tier changes no path of the committed pair |
| `UpdateApply.InstalledLayout` | cmd/quil/update_apply.go:134-136 | the paths of the installed pair and of the helper never meet |
| `UpdateApply.DirAndName` | cmd/quil/update_apply.go:221-241 | the directory of a path and the name in it, joined, are the path |
| `PidLock.LockPath.LockAbandoned` | internal/binswap/lock.go:93-115 | abandoned exactly if the recorded holder is gone or the file outlived the window |
| `PidLock.LockPath.TryLock` | internal/binswap/lock.go:37-69 | taken exactly if there was no lock, or a removable one that is abandoned: a dead holder that recorded its pid never keeps a lone caller out |
| `PidLock.LockPath.Release` | internal/binswap/lock.go:53-58 | the lock is gone exactly if it is there, can be read and removed, and records this process; else nothing changes |
| `PidLockRuns.AttemptIsTryLock` | internal/binswap/lock.go:37-115 | the steps of the runs below, taken by one process without a pause, take the lock exactly if there is none, or its holder is dead or the file too old, as TryLock does |
| `PidLockRuns.ReleaseIsRelease` | internal/binswap/lock.go:53-58 | and the steps of a release remove the file exactly if it records the process |
| `PidLockRuns.OwnershipLostIffRobbed` | internal/binswap/lock.go:46-69 | from a state where holders own the file at the path, a step keeps that if and only if it does not delete the file of another holder |
| `PidLockRuns.LoneRunsExclude` | internal/binswap/lock.go:46-115 | over every run in which one process at a time tries and a live holder lets go within the window, at most one process holds the lock in every state and no deletion hits another holder's file, although holders die anywhere, pids fail to be written, deletes are refused, judgements take any time and locks are taken over |
| `PidLockRuns.OrderlyRunsExclude` | internal/binswap/lock.go:14-21 | the same when anybody may try at any time, if no holder dies, pids are written and files deleted, nobody exits while judged, and holding plus judging fits the window |
| `PidLockLimits.ExclusiveIff` | internal/binswap/lock.go:37-115 | for either rule all runs from a free lock are exclusive and rob nobody if and only if the rule's times fit the stale window |
| `PidLockLimits.ExclusiveFromSecureIff` | internal/binswap/lock.go:37-115 | the same for runs from any state that the rule's invariant admits |
| `PidLockLimits.TakesOver` | internal/binswap/lock.go:102-115 | whatever the window, a run under the second rule takes the lock of a dead holder over at once: the runs it speaks of do contain takeovers |
| `PidLockRuns.ExitWhileJudged` | internal/binswap/lock.go:102-115 | two holders are reachable with no time passing and no holder dead |
| `PidLockRuns.SlowJudgement` | internal/binswap/lock.go:102-115 | two holders are reachable with every process alive and every holder releasing at once |
| `PidLockRuns.DoubleTakeover` | internal/binswap/lock.go:14-21 | the documented double takeover of one dead holder is reachable |
| `Base64Url.CanonicalIffEncoded` | internal/clientauth/token.go:85-102 | a string passes for n bytes if and only if it is the encoding of some n bytes, and the lax and the strict reader then agree and invert it |
| `Base64Url.DecodeEncode` | internal/clientauth/token.go:85-102 | reading gives back what was written, strict or not |
| `Base64Url.EncodeInjective` | internal/clientauth/token.go:52-52 | different bytes have different encodings |
| `Base64Url.GroupsAreNumbers` | internal/clientauth/token.go:52-52 | three bytes are a number of 24 bits and their four digits are that number to the base of 64; a rest of one or two bytes is filled up with zero bits |
| `Base64Url.EncodeSpells` | internal/clientauth/token.go:52-52 | the digits are written in the alphabet of section 5 of RFC 4648 |
| `Base64Url.LaxReadsIff` | internal/clientauth/scram.go:98-107 | what the lax reader accepts: digits and line breaks, the number of digits not one more than a multiple of four |
| `Token.ValidIdIffHex` | internal/clientauth/token.go:104-115 | the valid ids are exactly the hex forms of four bytes |
| `Token.MintedParses` | internal/clientauth/token.go:54-83 | a minted token parses to its own id, although its secret may contain the separator |
| `Token.ParsesIffMinted` | internal/clientauth/token.go:71-83 | a string parses to an id if and only if it is a token minted with that id |
| `Token.HexDecodeHex` | internal/clientauth/store.go:63-77 | stored keys read back as the bytes they were written from |
| `Token.HexDecodeIff` | internal/clientauth/store.go:63-77 | exactly strings of an even number of hex digits can be read, and each pair is a byte, the high digit first |
| `Scram.XorUndoes` | internal/clientauth/scram.go:109-116 | XOR with the same bytes twice changes nothing |
| `Scram.XorIsBitwise` | internal/clientauth/scram.go:109-116 | a bit of the result is set exactly where one of the two is |
| `Scram.KeysAreHashes` | internal/clientauth/scram.go:33-46 | the keys of a token are keyed hashes of two different labels, and what is stored is a hash of the one |
| `Scram.KeysAreIndependent` | internal/clientauth/scram.go:18-46 | what the daemon stores does not determine the client key: any three digests are the three keys for some hash functions |
| `Scram.MessageLayout` | internal/clientauth/scram.go:48-53 | where the id and both nonces stand in the signed bytes |
| `Scram.AuthMessageInjective` | internal/clientauth/scram.go:48-53 | on valid ids and nonces the signed bytes determine the id and both nonces |
| `Scram.AcceptedIffKeyShown` | internal/clientauth/scram.go:78-91 | a proof is accepted if and only if its bytes are, XORed with the signature of the stored key, a key that hashes to the stored key |
| `Scram.SignatureChecked` | internal/clientauth/scram.go:98-107 | a server signature passes if and only if it reads as all the bytes of the keyed hash under the server key |
| `Scram.HonestSidesAgree` | internal/clientauth/scram.go:71-107 | a client with the token and a daemon with its verifier accept each other |
| `Scram.ReplayNeedsCollision` | internal/clientauth/scram.go:93-107 | with a different nonce the signed message is a different one, and a server signature over the one passes for the other if and only if the keyed hash gives the same for both |
| `ClientLogin.AsRefusal` | internal/clientauth/client.go:138-154 | exactly error frames end the login, and only a readable refusal counts as one |
| `ClientLogin.Login` | internal/clientauth/client.go:61-136 | against every sequence of replies: success if and only if the peer answered with a valid nonce and then with what reads as the signature over this run's id and nonces; a hello and, to a good challenge only, one proof are sent, with exactly these contents; each failure means one kind of last answer |
| `ClientLogin.HonestLoginSucceeds` | internal/clientauth/client.go:61-136 | a daemon that holds the verifier of the token gets the client in, for all nonces |
| `ClientLogin.MessageIdsDiffer` | internal/clientauth/client.go:61-81 | two logins have one message id exactly if the first twelve random bytes are the same |
| `TokenStore.LoadsWhatWasWritten` | internal/clientauth/store.go:119-182 | a written store is read back whole, in whatever order it was listed, with nothing dropped |
| `TokenStore.LoadedIff` | internal/clientauth/store.go:119-182 | an entry is loaded exactly if it is the first of its id with a valid id and one of the three levels |
| `TokenStore.NewEntryFits` | internal/clientauth/store.go:226-281 | a new entry carries the id of its token and gives back the token's verifier |
| `TokenStore.KeysIff` | internal/clientauth/store.go:63-77 | an entry has keys exactly if both fields are 64 hex digits, which spell them |
| `TokenStore.Store.Open` | internal/clientauth/store.go:119-182 | loads the valid entries, the first of each id, counts what it drops, and refuses a newer file |
| `TokenStore.Store.Write` | internal/clientauth/store.go:420-452 | a failure before or at the rename leaves the file as it was; else the file lists the entries, each once, oldest first and by id among equals, whether or not the directory is synced |
| `TokenStore.OrderedListingsAgree` | internal/clientauth/store.go:406-418 | there is only one such listing, so what is written depends on the entries alone |
| `TokenStore.OrderedMeans` | internal/clientauth/store.go:406-418 | in that listing no entry is older than the one before it, and at equal times the id that is smaller at the first difference comes first |
| `TokenStore.Store.MintFree` | internal/clientauth/store.go:226-281 | at most eight mint calls, each before the last giving an id in use; answers an unused id |
| `TokenStore.Store.Create` | internal/clientauth/store.go:226-281 | on success memory and file gain exactly the new entry, with the name, level (standard by default), times and keys it should have, and a token that parses to its id; on any failure both are unchanged; each refusal happens exactly in its case; names stay unique under case folding |
| `TokenStore.Store.Resolve` | internal/clientauth/store.go:290-322 | an exact id beats a name; nothing is found only if neither matches |
| `TokenStore.Store.Revoke` | internal/clientauth/store.go:290-322 | on success the entry leaves memory and file and exactly its live connections are silenced; on failure nothing changes |
| `TokenStore.Store.Admit` | internal/clientauth/store.go:324-360 | admitted if and only if the entry exists, its keys decode, the proof verified for them and the time is before its expiry, if it has one; "expired" only after the proof verified; whatever the id, exactly one proof is checked, against the dummy keys if there are no others |
| `TokenStore.Store.ExpireSweep` | internal/clientauth/store.go:362-379 | silences exactly the connections of tokens whose expiry has come, used or not |
| `TokenStore.Store.TouchLastUsed` | internal/clientauth/store.go:381-397 | changes one last-used time; a write is due at most once a minute and token |
| `TokenStore.Serve` | internal/clientauth/store.go:90-93 | after any requests in any order no live connection belongs to a missing token, names are unique, and the file equals memory but for last-used times; each request has its effect, and no other, on what the one before left |
| `TokenStore.CreateThenLogin` | internal/clientauth/store.go:226-360 | the holder of a token just created is admitted with the proof it makes until it expires, and refused as expired after that |
| `SessionRecord.ParseBody` | internal/claudehook/claudehook.go:376-394 | a written record parses to its id and its path without the Unicode white space around it |
| `SessionRecord.ParseLines` | internal/claudehook/claudehook.go:376-394 | an id line of more than 256 bytes costs the id and never the path |
| `SessionRecord.ForgedLinesAreLeftOut` | internal/claudehook/runhook.go:500-506 | a path with a line break is left out of the record and the id stays |
| `SessionRecord.EndHasPoint` | internal/claudehook/claudehook.go:376-394 | the white character a text ends in is one of Unicode, in UTF-8 |
| `SessionRecord.EndIsPoint` | internal/claudehook/claudehook.go:376-394 | and every such character at the end of a text is white |
| `SessionRecord.UuidIsSessionId` | internal/claudehook/runhook.go:58-60 | a UUID with digits of either case is a session id |
| `SessionRecord.IdFileExactIff` | internal/claudehook/claudehook.go:320-351 | the id always comes back; the path, trimmed, comes back if and only if all of it but trailing white space is within the 8 KiB and the cut is not inside a white character |
| `SessionRecord.LongPathComesBackCut` | internal/claudehook/claudehook.go:336-340 | a longer path of plain characters comes back cut off |
| `SessionRecord.SidecarExact` | internal/claudehook/claudehook.go:353-364 | the sidecar gives the whole path exactly if the record is within the bound, else nothing |
| `SessionRecord.SidecarWins` | internal/claudehook/claudehook.go:342-349 | a sidecar of the recorded session decides the path, one of another session is ignored |
| `SessionHooks.ReadsAreReports` | internal/claudehook/claudehook.go:280-351 | in every interleaving every read returns an id and path that one hook invocation reported together, or the id alone; of a path past the record bound it is the beginning |
| `SessionHooks.IdFileIsLastStart` | internal/claudehook/runhook.go:482-515 | the id file always holds the record of the SessionStart that committed last |
| `SessionHooks.OnlyStartsWriteIds` | internal/claudehook/runhook.go:517-555 | no step of a Stop hook or a reader changes the id file |
| `SessionHooks.StopThenRead` | internal/claudehook/runhook.go:517-555 | after a Stop hook of the current session the next read gives the path it reported; one of another session changes no read |
| `SessionHooks.StartThenRead` | internal/claudehook/runhook.go:482-515 | after a SessionStart the next read gives its id and, within the bound, its path, unless the sidecar describes that session already |
| `SessionHooks.ReadIsNextRead` | internal/claudehook/claudehook.go:320-351 | a reader left alone reads the record these two speak of |
| `SessionHooks.InvocationsAreRuns` | internal/claudehook/runhook.go:482-555 | and the invocations they speak of are runs |
| `HostConn.Host.EnterConnect` | cmd/quil/mcp_hosts.go:163-197 | the first critical section of connect moves the host's fields as in the runs |
| `HostConn.Host.FinishDial` | cmd/quil/mcp_hosts.go:207-218 | so does the second, which stores the outcome of the dial |
| `HostConn.Host.RetryDisconnected` | cmd/quil/mcp_hosts.go:336-355 | a background retry is reserved exactly when the host is down, not dialling, not reserved and past the backoff |
| `HostDialRuns.EnterCases` | cmd/quil/mcp_hosts.go:163-197 | only the branch that dials changes anything, and only there is there a client to release |
| `HostDialRuns.RunKeeps` | cmd/quil/mcp_hosts.go:152-219 | every interleaving of callers, retries, dials and link losses keeps the invariant |
| `HostDialRuns.Drive` | cmd/quil/mcp_hosts.go:59-80 | any run, its critical sections executed on the host object, leaves the object in the state of the run, with the invariant |
| `HostDialRuns.EveryRun` | cmd/quil/mcp_hosts.go:152-219 | at most one dial in flight and no bridge beside it; no client released twice or while current; every waiter has a dial to wake it; after a failed dial a non-initial one starts at least the backoff later |
| `HostDialRuns.LiveBridgeStays` | cmd/quil/mcp_hosts.go:163-219 | no step replaces a live bridge |
| `HostDialRuns.DialWakesItsWaiters` | cmd/quil/mcp_hosts.go:169-174 | the end of a dial lets every caller waiting on it return |
| `HostDialRuns.DialsWhenDue` | cmd/quil/mcp_hosts.go:163-205 | a caller of a host that is down and not being dialled dials it, exactly if it is the initial one or the backoff since a failed dial has passed |
| `HostDialRuns.DropIsRedialled` | cmd/quil/mcp_hosts.go:175-190 | a link that drops is dialled again at once, whatever the backoff, and its client is released |
| `HostDialRuns.DialConnects` | cmd/quil/mcp_hosts.go:207-218 | a dial that succeeds leaves its client as the live bridge, one that fails leaves none and the reason |
| `HostDialRuns.PollRetriesIff` | cmd/quil/mcp_hosts.go:336-355 | a status read starts a retry exactly if the host is down, nobody dials or is about to retry, and the backoff has passed |
| `HostDialRuns.RetryMakesRoom` | cmd/quil/mcp_hosts.go:346-354 | a retry that is through makes room for the next |
| `Dib.WrappedExtent` | internal/clipboard/dib.go:83-107 | for the height whose negation wraps, the 64-bit extent is beyond any slice |
| `Dib.TrueExtent` | internal/clipboard/dib.go:98-107 | for every other height within the cap the 64-bit extent is the true one |
| `Dib.Stride` | internal/clipboard/dib.go:98-107 | a stored row is its packed pixels padded to the next multiple of four |
| `Dib.Check` | internal/clipboard/dib.go:40-112 | accepts only what is acceptable in unbounded arithmetic, below 2^32 bytes all of it, and finds the place of the pixels |
| `Dib.ScanAlpha` | internal/clipboard/dib.go:117-132 | finds out whether any stored pixel has alpha |
| `Dib.CopyRows` | internal/clipboard/dib.go:134-169 | the image bytes are the lines of the image, top first, whatever the stored row order |
| `Dib.DecodeDib` | internal/clipboard/dib.go:24-172 | for every input: the size and the pixels of the image, or rejection, with every index in bounds |
| `DibEncoding.HeaderReadsBack` | internal/clipboard/dib.go:46-57 | the header fields of an encoded bitmap read back, the sign of the height included |
| `DibEncoding.RoundTrip` | internal/clipboard/dib.go:24-172 | decoding any 24- or 32-bit encoding of an image, top-down or bottom-up, with any header size, masks, padding and trailer, gives the image back, its alpha forced to 255 if it was not stored or is zero throughout |
| `DibEncoding.ShownPixel` | internal/clipboard/dib.go:113-169 | that is, pixel by pixel: the colours, and the alpha if it is stored and not zero throughout, else 255 |
| `DibEncoding.UnchangedIff` | internal/clipboard/dib.go:117-121 | an image comes back unchanged if and only if it is opaque, or its alpha is stored and not zero throughout |
| `TokenCapture.CompleteTokenIff` | internal/claudetoken/capture.go:43-64 | a token is accepted if and only if it is the leftmost longest match and a byte follows it or the stream ended |
| `TokenCapture.PlainToken` | internal/claudetoken/capture.go:40-64 | the prefix followed by token bytes alone is a token exactly if there are at least twenty |
| `TokenCapture.TokenBytesAreBase64Url` | internal/claudetoken/capture.go:40-40 | the bytes of a token are those of the base64url alphabet |
| `TokenCapture.AcceptedStays` | internal/claudetoken/capture.go:43-64 | an accepted token is the token of every continuation of the stream |
| `TokenCapture.Capture` | internal/claudetoken/capture.go:137-183 | for every way of cutting the stream into reads, the captured token is the token of the whole stripped stream |
| `TokenCapture.SeenAt` | internal/claudetoken/capture.go:137-183 | after every read the token is that of what has arrived |
| `TokenCapture.SeenIsFinal` | internal/claudetoken/capture.go:137-149 | whenever it is looked at, the token is missing or final |
| `PromptText.SanitizePrompt` | internal/claudesessions/claudesessions.go:875-913 | the loop over the lines computes the specified text |
| `PromptText.PromptIsNormal` | internal/claudesessions/claudesessions.go:862-913 | no control or format character but newlines, no leading or trailing blank line, no two adjacent blank lines, no line ending in a space; at most 1201 characters |
| `PromptText.PromptFixedIff` | internal/claudesessions/claudesessions.go:875-913 | the fixed points are exactly the normal texts of at most 1200 characters, or 1201 ending in an ellipsis after no white space |
| `PromptText.PromptIsIdempotent` | internal/claudesessions/claudesessions.go:875-913 | sanitizing twice is sanitizing once, across the cut too |
| `PromptText.NothingWrittenIsLost` | internal/claudesessions/claudesessions.go:892-907 | before the cut the lines of the prompt with something to read on them, trimmed, are all kept, in order, with a blank line between two of them exactly where there were some |
| `PromptText.LineEndsSeparate` | internal/claudesessions/claudesessions.go:876-890 | a line end ends a line, whatever characters around it are dropped |
| `PromptText.CutIsBeginning` | internal/claudesessions/claudesessions.go:908-912 | a long text is cut at 1200 characters, and only blanks before the cut go as well |
| `TitleText.TitleIsNormal` | internal/claudesessions/claudesessions.go:840-933 | words without control or format characters, with one plain space between them and none around; at most 241 characters |
| `TitleText.TitleFixedIff` | internal/claudesessions/claudesessions.go:915-933 | the fixed points, exactly |
| `TitleText.TitleIsIdempotent` | internal/claudesessions/claudesessions.go:915-933 | sanitizing twice is sanitizing once, across the cut too |
| `TitleText.TitleKeepsWords` | internal/claudesessions/claudesessions.go:915-926 | before the cut the words of the title are the words of the prompt, without their hidden characters, all of them, in order; line ends, tabs and visible white space separate words |
| `TitleText.CutIsBeginning` | internal/claudesessions/claudesessions.go:928-931 | a long title is cut at 240 characters, and at most a space before the cut goes as well |
| `Toml.TomlQuote` | internal/codexhook/codexhook.go:205-231 | the loop writes the quoted form of the string |
| `Toml.QuoteReadsBack` | internal/codexhook/codexhook.go:205-231 | reading a quoted string with the basic-string grammar of TOML v1.0.0 gives the string, for every string of code points |
| `Toml.ValueReadsBack` | internal/codexhook/codexhook.go:233-261 | reading any printed value gives the value: strings, integers, arrays, inline tables with distinct keys |
| `CodexOverride.BuildConfigOverride` | internal/codexhook/codexhook.go:233-261 | refuses blank commands and ones with CR, LF or NUL, each with its own error; else the text is the printed form of the intended table |
| `CodexOverride.TableIsPrinted` | internal/codexhook/codexhook.go:246-260 | the text assembled from the format strings is the table, printed |
| `CodexOverride.EventsRead` | internal/codexhook/codexhook.go:142-153 | the table has exactly one handler for each of the ten events, with the command and the event's timeout, the state table, and nothing else |
| `CodexOverride.StateReads` | internal/codexhook/codexhook.go:155-170 | the state table has exactly one trust entry for each event, under the event's own key |
| `CodexOverride.HookKeysDiffer` | internal/codexhook/codexhook.go:166-170 | different events have different trust keys |
| `CodexOverride.KnownHookKey` | internal/codexhook/codexhook.go:166-170 | the trust key has the form source, event, group, handler |
| `CodexOverride.OverrideReadsBack` | internal/codexhook/codexhook.go:233-261 | reading the whole override gives that table back |
| `ConfigMerge.LeafEqual` | internal/config/merge.go:53-59 | leaves are equal by content, floats by value with all NaNs alike; nil differs from empty |
| `ConfigMerge.SameIff` | internal/config/merge.go:53-59 | only floats that are one number, or both none, are the same without being equal |
| `ConfigMerge.WalkedIff` | internal/config/merge.go:37-51 | a leaf is reached exactly if every field on the way to it is exported |
| `ConfigMerge.ChangedIff` | internal/config/merge.go:14-51 | what counts as a change of a leaf, and of the pair |
| `ConfigMerge.CopyRef` | internal/config/merge.go:61-83 | the copy has the content, in memory of its own |
| `ConfigMerge.MergeValue` | internal/config/merge.go:37-51 | each leaf of any nested structure is a fresh copy of current where it changed since launch and an exported path leads to it, else untouched |
| `ConfigMerge.MergeChanged` | internal/config/merge.go:8-35 | the merged contents, and no leaf comes to share memory with anything that existed before |
| `ConfigMerge.Clone` | internal/config/merge.go:85-104 | the copy has the same contents, and no leaf of it that an exported path leads to shares memory with anything that existed before |
| `ConfigMerge.NothingChangedKeepsFresh` | internal/config/merge.go:22-23 | launch equal to current gives fresh |
| `ConfigMerge.AloneWritesCurrent` | internal/config/merge.go:8-13 | fresh equal to launch gives current, leaf by leaf equal but for floats that are the same number |
| `ConfigMerge.MergeTwiceIsOnce` | internal/config/merge.go:8-35 | merging twice is merging once |
| `ConfigMerge.ApartClientsCommute` | internal/config/merge.go:8-13 | clients that changed different leaves may exit in either order and both changes are kept |
| `ConfigMerge.LastExitDecides` | internal/config/merge.go:8-13 | for any two clients the order does not matter if and only if they changed no leaf differently |
| `ConfigMerge.PairIsWhole` | internal/config/merge.go:25-34 | the sign-in pair is wholly current's if either part changed, else wholly fresh's |
| `ConfigMerge.WalkAloneMixesPairs` | internal/config/merge.go:25-28 | without the coupling, token with shared comes out of three configurations that do not have it |
| `Coalescer.Run` | internal/daemon/coalescer.go:19-68 | the select loop makes the calls and keeps the accumulator that the step function says |
| `Coalescer.EveryRun` | internal/daemon/coalescer.go:10-18 | for every interleaving of chunks, timer and close: batches and accumulator together are the received bytes in order; batches are non-empty and below the cap but for their last chunk; held bytes have a running timer; the hook is called once, first |
| `Coalescer.FlushIff` | internal/daemon/coalescer.go:43-66 | a batch is flushed exactly when the cap is reached, the fired timer is received or the chunks end, and is all that is held |
| `Coalescer.FiredMeansQuiet` | internal/daemon/coalescer.go:27-35 | the timer has fired only if its delay has just run out, with no chunk since |
| `Coalescer.QuietFlushes` | internal/daemon/coalescer.go:62-66 | when no chunk comes for the delay, everything received has been flushed |
| `Coalescer.CapHoldsIff` | internal/daemon/coalescer.go:5-11 | all batches of all runs over chunks of at most m bytes are within the cap if and only if m is at most 1 |
| `AuditBudget.Ledger.Take` | internal/daemon/audit.go:62-74 | grants while the window has room, else counts; reports what an ended window suppressed |
| `AuditBudget.Ledger.Drain` | internal/daemon/audit.go:76-88 | reports an ended window, or when forced the current one too, and forgets it |
| `AuditBudget.Conserved` | internal/daemon/audit.go:46-97 | over any calls, granted plus reported plus pending lines are the calls of take |
| `AuditBudget.WindowIff` | internal/daemon/audit.go:62-97 | for a minute a window grants 120 lines and reports nothing; the first call after it reports what it suppressed and is granted |
| `AuditBudget.FloodEnds` | internal/daemon/audit.go:62-97 | a minute after the last call a line is granted again and everything pending is reported |
| `AuditBudget.SuppressedOnlyWhenFull` | internal/daemon/audit.go:46-74 | no line is suppressed unless 120 were granted within the minute that ends with it |
| `AuditBudget.AnyMinuteIsBounded` | internal/daemon/audit.go:46-60 | with a clock that never goes back any half-open minute grants at most 240 lines, and 120 more for each forced drain |
| `AuditBudget.BoundIsTight` | internal/daemon/audit.go:46-60 | some run without a forced drain grants 240 lines within a minute |

## Left out

- Real files, processes, sockets, terminals and ssh; the cryptographic strength of the hash functions; timing.
- `internal/binswap`: LockHeld, WaitLock and the OS file lock; the short retry of a refused delete is folded into whether the delete succeeds.
- `internal/binswap`: a restored target is judged by the state the stat calls see; a process that changes the same paths between two calls is modelled for the lock only, not for the swap.
- BinSwapRuns.Life: says nothing once the stat call of a repair fails on a backup that is there, because the repair may then restore an older one (`BinSwapRuns.RepairHealthyIff` says exactly when that does harm).
- `FileSystem`: every write gets a later time stamp than all before it. Two swaps within one tick of a coarse file system clock can leave backups of equal age, of which the repair takes the first (`BinSwap.RepairTakesFirstOfNewest`).
- PidLockRuns.OrderlyRunsExclude: exclusion is proved under conditions on the callers, because without them it is false (see the runs above), and so for PidLockRuns.LoneRunsExclude.
- TokenStore.Store.Write: the temporary file left by a failed write and its removal are not modelled.
- TokenStore.Store.Open: the decoding of JSON and the file's permissions are not modelled.
- SessionRecord.IdFileExactIff: for paths whose trimmed form is not a part of one white character, as no text in UTF-8 is.
- SessionHooks: the retries of the stop hook, its spool lines and its log are not modelled, nor is `truncate`.
- HostDialRuns.EveryRun: stated for connect, not for the later re-read in bridgeFor, which may find the bridge gone again; request errors and cancel functions are not modelled.
- ClientLogin.Login: the text of errors and its cleaning are not modelled.
- Dib.DecodeDib: on lengths of 2^32 bytes and more only soundness of acceptance is proved, because the 32-bit length test wraps there; the clipboard reader never passes that much.
- TokenCapture.Capture: stripping is a parameter that takes prefixes to prefixes and nothing to nothing; the budget, the mirror and the process are not modelled.
- PromptText.SanitizePrompt: text is code points, so invalid UTF-8 is what decoding made of it; the Unicode tables are parameters, and so for TitleText.
- Toml.ValueReadsBack: the reader is for the part of TOML the override is written in; optional white space, other string forms, floats and dates are not modelled.
- CodexOverride.BuildConfigOverride: the trust hash is a parameter, and so is which characters are white space.
- ConfigMerge.MergeValue: a configuration is its leaves in memory order; lists and maps of strings stand for all lists and maps, and their memory is not written to while merging.
- Coalescer.Run: the length of the delay is not modelled, only that it runs out; the accumulator's backing array is a value.
- AuditBudget: time is an integer count of nanoseconds without saturation.
- `internal/clientauth/rights.go`, flag parsers, prompts, message texts, status rendering, MCP tool registration, remote provisioning, the web gateway, the terminal interface, `EscapeCWD` and the defaults and path helpers of `internal/config`: large, but settled branch by branch.
