# blossom-relay-server: a verified model

A Dafny model of the parts of blossom-relay-server that are easiest to get wrong, with proofs of what they promise.
`dafny verify dfyconfig.toml` checks all of it.

blossom-relay-server is a node that stores mod files by their SHA-256 and runs a Nostr relay for the events that describe
them. The model has seven groups.

| group | files | what it is about |
|---|---|---|
| bech32 and NIP-19 | `JsInt32`, `BitRegroup`, `Polymod`, `Bech32`, `Bip173`, `Nip19` | the dashboard's encoder on 32-bit JavaScript arithmetic, against an independent reader and the text of BIP-173 |
| walks over an event store | `PagedWalks`, `Mirroring` | three cursor loops that work around a per-query cap; what mirroring a relay achieves |
| upload admission and streaming | `UploadLimiter`, `StreamBody` | a lock/channel/re-check protocol under every schedule; when an upload ends and how long it lasts |
| blobs | `BlobRefs`, `BlobStore`, `BlobRecords`, `BlobLifecycle`, `BlobGuarantees`, `BlobRestarts`, `BlobServer` | URL scanning, the reference index, content addressing, and one step per HTTP handler over records in memory and on disk |
| relay policy | `Coordinates`, `RelayPolicy`, `Moderation`, `RelayNode` | persistent deletions and takedowns over whole runs with restarts |
| circuit breaker | `Breaker` | the failure counter and the rate it allows |
| download gates | `Base64Url`, `GateTokens` | stateless tokens and leading zero bits |

`Digits`, `Text` and `Wrappers` hold numbers in a base, Go's string functions and `Option`.

How the model is built. Code that changes fields is a class; each method is tied to a function of the old state, and the
protocol theorems are about runs of that function. Loops are loops, with their invariants. SHA-256, HMAC, the UTF-8
encoder, the rounding of doubles, Unicode lowercasing and the search predicate are parameters. Whether a file could be
written, whether the backend worked and which events of one second a capped query returns are parts of each step, free to
go either way; a statement that depends on one of them names it. Authorization has happened before a modelled handler
starts.

## Where the code does less than it says

Each of these is proved with its exact condition.

- The paged admin query reports `truncated = false` ("reached the end of the range") after a second that fills a whole page
  of 1000, whatever follows it; the index rebuild stops there too. Both visit everything exactly when no such second is
  followed by another event (`PagedWalks.ReachIsAll`; 1001 events of one second in `PagedWalks.BurstNotFinished`).
- The relay backfill steps to `oldest - 1`. It offers everything exactly when every page end falls between two seconds and
  every page reaches more than a second below the one before (`PagedWalks.BackfillRelay`). Pairwise distinct timestamps are
  enough for a cap of two or more, not for a cap of one (`DistinctTimesComplete`, `CapOneComplete`, `CapOneExample`).
- The minimum upload rate is described as an average over a rolling window. The windows follow each other, and a window is
  judged only after a read: an upload is refused exactly for the first consecutive window that brings too little
  (`StreamBody.StreamBody`). A rolling guarantee holds for stretches of two windows and an idle timeout, less a nanosecond
  (`RollingGuarantee`). One nanosecond below there is none, whatever the idle timeout: `SlackIsReal` finishes although such
  a stretch brought one byte a read, less than a window's minimum when that exceeds the number of those reads.
- The deletion record is said to be permanent. A failed save is ignored: a restart then forgets the deletion, and the mod
  can be mirrored back (`Moderation.UnsavedDeletionExactly`, `DeletedAtFallsExactly`). And a deletion keeps its target away
  only if it is dated no earlier than the target, which a request that names an id need not be.
- A refused deletion request is not without effect: what its targets before the first foreign one ask for has been done
  (`Moderation.RefusedLeaves`, `RefusedChangedNothing`).
- A takedown that could not be saved is in force until the next restart and leaves stored events in place; one whose lifting
  could not be saved returns at the next restart (`Moderation.UnsavedBanExactly`, `UnsavedUnbanExactly`).
- A takedown and a sweep delete what one query returns, at most 1000 events. Matching events are left exactly when there are
  more (`Moderation.TakedownReaches`, `SweepExactly`; 1001 events of one address in `TakedownOutlived`).
- A takedown also deletes the author's events that carry the banned identifier in a later `d` tag
  (`Coordinates.TakedownExact`).
- A ban key is trimmed before use, so an event whose `d` ends in white space cannot be taken down by its own coordinate
  (`Coordinates.BanReaches`).
- The node's own ad inventory never meets the policy, so it can be stored under a key that is taken down
  (`Moderation.InventoryEscapes`).
- A blacklist entry whose save failed lasts until the next restart, one whose lifting was not saved returns there
  (`BlobGuarantees.BlacklistAcrossRestart`; bytes served again in `UnsavedBlacklistServed`).
- "A quarantined hash has no owners, an owned one is stored" is broken exactly by a restart from contradictory records
  (`BlobLifecycle.CoherentExactly`). Which handler leaves them so is told from its request, the records and the files before
  it, whatever has failed by then (`BlobRestarts.TornExactly`): with files in sync only a failed save does
  (`FirstTornExactly`), afterwards one that succeeds can do it too (`LaterTear`).
- "A quarantined blob is stored" is broken exactly by the dashboard delete and the blacklist purge of a quarantined blob,
  and by a restart that reads such an entry (`BlobGuarantees.QuarantinedIsStoredExactly`; which handlers leave one on disk,
  `BlobRestarts.StaleExactly`).
- A gate token for an address that contains `|` never verifies (`GateTokens.PowVerifies`, `GateTokens.AdVerifies`).
- `naddrEncode` writes strings that read back as the coordinate exactly for kinds below 2^32 and identifiers of at most 255
  UTF-8 bytes (`Nip19.NaddrEncode`).

## Model

| member | source | states |
|---|---|---|
| BitRegroup.ConvertBits | dashboard/src/nostr.ts:138-153 | although `acc` is never masked and wraps at 32 bits, n bytes give ceil(8n/5) words below 32 that are the bytes' number, shifted left by the fewer than five padding bits, in base 32 |
| BitRegroup.RegroupMeans | dashboard/src/nostr.ts:138-153 | the words, as a base-32 number, are the bytes, as a base-256 number, shifted by the fewer than five padding bits |
| BitRegroup.EmitWords | dashboard/src/nostr.ts:146-149 | the inner loop leaves fewer than five pending bits; words out and bits pending together still spell the bytes read |
| BitRegroup.WrapKeepsLow | dashboard/src/nostr.ts:144 | reduction to a signed 32-bit number keeps the at most twelve bits that can be pending |
| BitRegroup.RegroupRoundTrip | dashboard/src/nostr.ts:138-153 | a reader that refuses long or nonzero padding recovers exactly the bytes |
| JsInt32.ShiftInByte | dashboard/src/nostr.ts:144 | `(acc << 8) \| v` is multiply-and-add, wrapped, also for negative `acc` |
| Polymod.Compute | dashboard/src/nostr.ts:119-128 | the two loops with signed shifts compute the left fold of one checksum step from 1 |
| Polymod.StepBound | dashboard/src/nostr.ts:123-125 | the register stays below 2^30, so signed and unsigned shifts agree |
| Polymod.FoldXor | dashboard/src/nostr.ts:119-128 | the checksum is linear: of the xor of two sequences it is the xor of theirs |
| Polymod.StepInjective | dashboard/src/nostr.ts:122-126 | a nonzero difference of 30-bit registers never dies out |
| Polymod.ChecksumSound | dashboard/src/nostr.ts:155-160 | appending the six symbols makes every sequence fold to 1 |
| Polymod.SingleDifference | dashboard/src/nostr.ts:119-128 | sequences of any one length that differ in one symbol fold differently |
| Bip173.StepIsPolynomial | dashboard/src/nostr.ts:120-126 | for every 30-bit register one step is multiplication by x over GF(32), plus the symbol, modulo x^6 + 29x^5 + 22x^4 + 20x^3 + 21x^2 + 29x + 18, the field defined from x^5 + x^3 + 1 |
| Bip173.FeedbackIsProduct | dashboard/src/nostr.ts:120 | the five generator constants are the multiples of that one polynomial |
| Bip173.PrefixExpanded | dashboard/src/nostr.ts:130-136 | for every prefix and position: the code unit divided by 32, a zero, the code unit modulo 32 |
| Bip173.CharacterSet | dashboard/src/nostr.ts:111 | the 32 symbols in order are written qpzry9x8gf2tvdw0s3jn54khce6mua7l |
| Bip173.SpellsA | dashboard/src/nostr.ts:155-164 | the prefix a without words gives the test string a12uel5l of BIP-173 |
| Bech32.ExpandPrefix | dashboard/src/nostr.ts:130-136 | high bits of every code unit, a zero, low bits of every code unit |
| Bech32.Bech32Encode | dashboard/src/nostr.ts:155-164 | for every list, prefix, `1` and ceil(8n/5) words with their valid checksum in the character set; for bytes, the string the theorems below read back |
| Bech32.SpelledIsValid | dashboard/src/nostr.ts:155-164 | BIP-173 "Checksum": every prefix and every word list is spelled with a valid checksum |
| Bech32.RoundTrip | dashboard/src/nostr.ts:155-164 | an independent decoder (last `1`, character set, checksum, 5 to 8 regrouping) gives back prefix and bytes, for every prefix and all bytes |
| Bech32.OneSymbolDetected | dashboard/src/nostr.ts:119-128 | of two word lists of one length that differ in one symbol at most one is valid, at any length |
| Bech32.OneTypoRefused | dashboard/src/nostr.ts:155-164 | changing one character after the separator to anything but `1`, inside the character set or not, makes the reader refuse the string |
| Bech32.NeverOneApart | dashboard/src/nostr.ts:155-164 | two outputs of one prefix and length never differ in exactly one character |
| Nip19.HexToBytes | dashboard/src/nostr.ts:113-117 | pairs as `parseInt` reads them, odd lengths and non-hex digits included |
| Nip19.HexBytesOfHex | dashboard/src/nostr.ts:113-117 | every byte sequence is read back from its hex digits, high half first, of either case |
| Nip19.OddPairs | dashboard/src/nostr.ts:115 | what becomes of single digits, signs, white space and characters that are no digits |
| Nip19.NpubEncode | dashboard/src/nostr.ts:75-81 | every hex key reads back as its bytes under the prefix `npub` |
| Nip19.ReadOfTlv | dashboard/src/nostr.ts:99-103 | reading the type-length-value list returns kind modulo 2^32, author and identifier |
| Nip19.ReadableLimits | dashboard/src/nostr.ts:89-108 | no string reads as an identifier over 255 bytes or a kind beyond 32 bits |
| Nip19.ParseOfCoordinate | dashboard/src/nostr.ts:91-97 | cutting at the first two colons undoes printing a coordinate, colons in `d` included |
| Nip19.ParseIntMeans | dashboard/src/nostr.ts:94 | white space, a sign and digits before anything else give the number; without digits there is none |
| Nip19.NaddrEncode | dashboard/src/nostr.ts:89-108 | the output reads back as the coordinate's triple, the kind as printed, if and only if the kind fits 32 bits and `d` 255 bytes, however doubles round larger kinds; what is no coordinate, or has an infinite kind, comes back unchanged |
| Text.SplitThree | internal/server/admin.go:503-508 | SplitN at two separators undoes joining, whatever the last part holds |
| Text.TrimFixpoint | internal/server/admin.go:466 | exactly the strings without Unicode white space at their ends survive trimming |
| Text.TrimSpaceMeans | internal/server/admin.go:466 | white space around a string goes, and nothing else |
| Text.SpaceMeans | internal/server/admin.go:466 | the code points of Unicode's white space |
| Text.ParseOfDecimal | internal/server/admin.go:504-507 | Atoi undoes decimal printing over the 64-bit range |
| Text.DecimalMeans | internal/server/banned_events.go:26 | numbers are printed digit by digit, most significant first, behind a minus if negative |
| Text.ParseInt64Means | internal/server/admin.go:504-507 | digits behind at most one sign are their number if it fits 64 bits |
| Text.ParseInt64Refuses | internal/server/admin.go:504-507 | nothing else is a number |
| Text.CheckSha256Hex | internal/server/upload.go:54-64 | true if and only if the string is 64 lowercase hex digits |
| Coordinates.SplitCoordinate | internal/server/banned_events.go:24-29 | splitting a printed coordinate gives its kind, pubkey and `d` for every `d` |
| Coordinates.CoordinateInjective | internal/server/banned_events.go:24-29 | two addresses never print alike |
| Coordinates.KeysEqual | internal/server/banned_events.go:24-29 | two events share a moderation key exactly when they share an address, or have no `d` and share the id |
| Coordinates.TagValueMeans | internal/server/upload.go:45-52 | the value of the first tag of the name that has one, empty without |
| Coordinates.FilterOfThree | internal/server/admin.go:503-508 | a key with two colons asks for a coordinate if it starts with a number, for nothing otherwise |
| Coordinates.FilterOfShort | internal/server/admin.go:509-513 | one with fewer asks for an id if it is 64 hex digits, for nothing otherwise |
| Coordinates.TakedownCovers | internal/server/admin.go:501-521 | the query a takedown deletes by matches every event its ban rejects |
| Coordinates.TakedownExact | internal/server/admin.go:501-521 | besides those it matches exactly the same author's events of that kind that carry the `d` in a tag that is not their first |
| Coordinates.BanReaches | internal/server/admin.go:466-476 | the trimmed key is the event's key exactly when `d` does not end in white space, Unicode's included |
| PagedWalks.QueryEventsPaged | internal/server/events.go:87-132 | always the matches of a newest-first, duplicate-free prefix of the range; stops early only at the limit, the ceiling or a failing query, having seen fewer than 201000 events; otherwise has visited exactly the first `Reach` events; each further round has seen strictly more |
| PagedWalks.ScanPage | internal/server/events.go:106-123 | one page extends the seen prefix, the matches and the id set together, and finds the page's oldest date |
| PagedWalks.SelectedMeans | internal/server/events.go:113-118 | the matches are the events at the matching positions, in order |
| PagedWalks.NoneLeftOut | internal/server/events.go:113-118 | no matching position is left out |
| PagedWalks.ReachIsAll | internal/server/events.go:124-130 | the walk reaches everything if and only if nothing follows a second that fills a page |
| PagedWalks.SparseReachIsAll | internal/server/events.go:124-130 | fewer than 1000 events a second suffice |
| PagedWalks.BurstNotFinished | internal/server/events.go:124-126 | 1001 well-formed events of one second: 1000 are visited |
| PagedWalks.Advance | internal/server/events.go:124-130 | a page that reached an older second moves the walk strictly further |
| PagedWalks.Finish | internal/server/events.go:124-126 | a short page, or a full one within one second, ends the walk exactly at `Reach` |
| PagedWalks.RepeatsAreBoundary | internal/server/blob_refs.go:176-195 | what a query from a page's oldest date repeats of that page is dated exactly so: skipping repeats before updating `oldest` is harmless |
| PagedWalks.NotePage | internal/server/blob_refs.go:180-191 | one page notes the unseen events in order and still finds the page's oldest date |
| PagedWalks.BackfillRefs | internal/server/blob_refs.go:166-196 | terminates, having noted every event of the range up to `Reach` once, newest first |
| PagedWalks.BackfillRelay | internal/server/ingest.go:70-110 | terminates, offers no event twice, and offers all of them if and only if every page end is crossed |
| PagedWalks.DistinctTimesComplete | internal/server/ingest.go:104-108 | pairwise distinct timestamps suffice for every cap of at least two |
| PagedWalks.CapOneComplete | internal/server/ingest.go:104-108 | with a cap of one they suffice exactly when no two neighbours are one second apart |
| PagedWalks.CapOneExample | internal/server/ingest.go:104-108 | three consecutive seconds behind a cap of one are not all offered |
| Mirroring.MirrorsAll | internal/server/ingest.go:93-101 | after any history, in any order, the store holds nothing but old events and events of the history, and each addressable one the policy accepts is stored or superseded at its address |
| Mirroring.StaysCovered | internal/server/ingest.go:47-50 | replacing never loses an address to an older revision |
| Mirroring.Backfill | internal/server/ingest.go:70-110 | a complete walk makes the node a mirror of every addressable event that passes the checks and the policy, whatever else the relay sends, and keeps the relay's invariant |
| UploadLimiter.Safety | internal/server/limits.go:32-64 | under every schedule: occupancy is the number of slot owners and within the cap, busy keys are the holders' keys with one holder each, no drain can block |
| UploadLimiter.NeverBlocks | internal/server/limits.go:49 | `<-l.global` never waits |
| UploadLimiter.StepKeepsInv | internal/server/limits.go:32-64 | each atomic section keeps the invariant, a second release included |
| UploadLimiter.FinishedIsEmpty | internal/server/limits.go:56-63 | when all have finished no slot is taken and no key busy |
| UploadLimiter.RefusalsJustified | internal/server/limits.go:33-51 | `errBusy` only when full, `errNpubBusy` only while another goroutine holds the key |
| UploadLimiter.OutcomeSaysWhy | internal/server/limits.go:32-64 | over every run: released only if it held, busy only if it found the channel full, npub-busy only if it found another upload of its key, and whoever was refused never held |
| UploadLimiter.AdmittedWhenFree | internal/server/limits.go:33-53 | with a free slot and its key free, three undisturbed turns admit |
| UploadLimiter.FiveTurnsFinish | internal/server/limits.go:32-64 | a goroutine is done after five turns of its own, whatever the others do |
| UploadLimiter.Limiter.constructor | internal/server/limits.go:21-29 | at least one slot, none taken |
| UploadLimiter.Limiter.FirstCheck | internal/server/limits.go:33-38 | is the first step of the protocol |
| UploadLimiter.Limiter.TrySend | internal/server/limits.go:40-44 | is the non-blocking send |
| UploadLimiter.Limiter.Recheck | internal/server/limits.go:46-53 | is the re-check under the lock |
| UploadLimiter.Limiter.Forget | internal/server/limits.go:58-60 | is the first half of a release |
| UploadLimiter.Limiter.Drain | internal/server/limits.go:61 | is the drain, which the invariant shows to be enabled |
| StreamBody.StreamBody | internal/server/upload.go:192-235 | on every reader script: it ends at the first read that stops it and with that read's reason, in the source's order, a slow window being one of the consecutive ones; never a byte past the limit; what is written is a prefix of what was read and all of it on success; the read time stays within (limit/windowMin + 1) x (5 s + idle timeout) |
| StreamBody.EndsOnce | internal/server/upload.go:202-234 | that determines how much is read and the outcome |
| StreamBody.TooSlowMeans | internal/server/upload.go:218-221 | a refusal as too slow is earned by five seconds or more with less than five seconds' worth of the minimum rate |
| StreamBody.BoundMeans | internal/server/upload.go:192-235 | the bound in seconds |
| StreamBody.RollingGuarantee | internal/server/upload.go:188-191 | unless refused as too slow, every stretch of judged reads that lasts two windows and an idle timeout, less a nanosecond, brought a window's minimum |
| StreamBody.SlackIsReal | internal/server/upload.go:218-224 | one nanosecond less is not enough, for any idle timeout: an upload whose reads all bring bytes finishes although it only trickled for so long |
| StreamBody.WindowsBound | internal/server/upload.go:218-224 | w full windows within the limit bound the time |
| Breaker.FailuresCount | internal/storage/breaker.go:56-71 | under any interleaving the counter is the trailing run of failures modulo the threshold, so it stays below it |
| Breaker.TrailingMeans | internal/storage/breaker.go:56-64 | the run of failures is the longest one at the end of the log without nil or not-found |
| Breaker.OpensExactly | internal/storage/breaker.go:62-70 | the circuit opens exactly on failures that complete a full threshold in a row |
| Breaker.HealthyRun | internal/storage/breaker.go:57-62 | any run of nil and not-found leaves no failures and the circuit as it is |
| Breaker.RateBound | internal/storage/breaker.go:41-71 | against a dead backend any span T starts at most threshold x (floor(T/backoff) + 1) calls |
| Breaker.CircuitBreaker.RecordError | internal/storage/breaker.go:56-71 | case by case: nil and not-found reset the counter; another error advances it, or at the threshold opens the circuit for the backoff |
| Breaker.CircuitBreaker.Admit | internal/storage/breaker.go:42-48 | open exactly while the clock is before `openUntil` |
| Breaker.CircuitBreaker.constructor | internal/storage/breaker.go:35-37 | five failures, a minute |
| Breaker.CircuitBreaker.Guard | internal/storage/breaker.go:41-54 | refused without change while open, otherwise run and recorded |
| Base64Url.RoundTrip | internal/server/gate.go:118-146 | RFC 4648 section 5 without padding: decoding undoes encoding |
| Base64Url.EncodeMeans | internal/server/gate.go:118-124 | three bytes are a 24-bit number and four symbols its base-64 digits |
| Base64Url.EncodeEndMeans | internal/server/gate.go:118-124 | one or two at the end are filled up with zero bits, without padding |
| Base64Url.SymbolTable | internal/server/gate.go:118-124 | the URL-safe alphabet |
| Base64Url.Vectors | internal/server/gate.go:118-124 | three test vectors of RFC 4648 section 10 |
| Base64Url.EncodedWithout | internal/server/gate.go:118-124 | an encoding holds no character outside its alphabet |
| GateTokens.LeadingZeroBits | internal/server/gate.go:48-59 | the loop counts the leading zero bits |
| GateTokens.ZeroBitsMeaning | internal/server/gate.go:48-59 | at least d of them if and only if the big-endian number is below 2^(8n - d) |
| GateTokens.OpenOfSign | internal/server/gate.go:118-146 | parsing a signed token gives the fields of its payload |
| GateTokens.OpenMeans | internal/server/gate.go:127-146 | a token opens if and only if it is two base64url parts, the second the MAC of the first |
| Text.SplitOfJoin | internal/server/gate.go:118-146 | splitting undoes joining, for every nonempty list, if and only if no part holds the separator, and gives another number of parts otherwise |
| GateTokens.FiveFields | internal/server/gate.go:118-146 | five joined fields are read back, and as five at all, if and only if none holds the separator |
| GateTokens.PowVerifies | internal/server/gate.go:62-115 | a minted challenge with a nonce verifies if and only if the nonce has no colon, it is presented for its own blob and address, neither these nor the random part have a `\|`, it has not expired and the digest meets the difficulty |
| GateTokens.VerifyPowExactly | internal/server/gate.go:74-115 | whoever made the proof: it verifies if and only if its token opens to the blob, the address, a date not past and a difficulty the digest meets |
| GateTokens.AdVerifies | internal/server/ad.go:21-48 | a minted ad challenge verifies if and only if it is presented for its own blob and address, neither these nor the random part have a `\|` and it has not expired; the ad id comes back |
| GateTokens.VerifyAdExactly | internal/server/ad.go:29-48 | the same for an ad header, and the id it yields |
| GateTokens.VerifyAdAlone | internal/server/ad.go:29-48 | a header without a semicolon yields no id |
| GateTokens.NeverBoth | internal/server/gate.go:74-115 | no token passes both gates, whoever made it |
| BlobRefs.LeadingHexLen | internal/server/blob_refs.go:140-151 | the length of the maximal hex prefix |
| BlobRefs.NoOverlap | internal/server/blob_refs.go:106-124 | a needle whose only `/` is its last byte cannot overlap itself |
| BlobRefs.Scan | internal/server/blob_refs.go:107-125 | jumping past each match collects the hits of every position |
| BlobRefs.ExtractHashes | internal/server/blob_refs.go:103-135 | the hits of content and tag values, in order, without repeats |
| BlobRefs.ScanTag | internal/server/blob_refs.go:129-133 | every value of one tag, in order |
| BlobRefs.HashesExact | internal/server/blob_refs.go:103-135 | a hash is returned if and only if some text has it behind the host as a maximal run of exactly 64 hex digits; none twice |
| BlobRefs.LinkMeans | internal/server/blob_refs.go:106-122 | such a link, character by character |
| BlobRefs.TextsMean | internal/server/blob_refs.go:128-133 | content and all tag values are scanned, nothing else |
| BlobRefs.RefsStep | internal/server/blob_refs.go:68-87 | appending under the cap and without repeats is what one more event does to the reference definition |
| BlobRefs.ClaimedExactly | internal/server/blob_refs.go:53-87 | a blob is claimed if and only if some noted event links to it |
| BlobRefs.FirstByCoordMeans | internal/server/blob_refs.go:77-96 | references stand in the order of their first appearance, each as it first appeared |
| BlobRefs.CappedMeans | internal/server/blob_refs.go:79-81 | fifty at most |
| BlobRefs.Index.Note | internal/server/blob_refs.go:68-87 | the map equals, for every hash, the first fifty distinct coordinates of the noted events that link to it, with their first titles |
| BlobRefs.Index.AddRef | internal/server/blob_refs.go:77-86 | exactly the given entries gain the reference, unless full or already there |
| BlobStore.SplitOfBlobKey | internal/storage/storage.go:19-24 | `splitKey` undoes `blobKey` |
| BlobStore.KeyPathMeans | internal/storage/disk.go:33-42 | a blob lies in the directory of its first two digits under hash, dot and extension |
| BlobStore.ClassifyUpload | internal/server/upload.go:122-145 | first matching magic, else `bin`; refused when not allowed or an encrypted zip |
| BlobStore.ZipExactly | internal/server/upload.go:122-145 | for every tail: a file that starts 50 4b 03 04 v0 v1 f0 f1 is a zip, accepted if and only if zips are allowed and f0 is even |
| BlobStore.ShortZip | internal/server/upload.go:141 | a zip that ends before its flags is accepted if and only if zips are allowed |
| BlobStore.OtherMagics | internal/server/upload.go:102-108 | each other magic with any tail gives its extension, accepted if and only if that is allowed |
| BlobStore.NoMagic | internal/server/upload.go:131-137 | everything else is bin |
| BlobStore.OneFilePerHash | internal/storage/disk.go:45-61 | in a content-addressed store a hash names at most one file, whose bytes hash to it |
| BlobStore.HashWitness | internal/server/upload.go:345-349 | the assumption on hashes can be met: by every set of bodies of different lengths below 10000 |
| BlobStore.PutKeepsAddressed | internal/server/upload.go:345-363 | storing under hash and detected type keeps the store content-addressed and replaces no other bytes |
| BlobStore.Disk.ResolvePath | internal/storage/disk.go:45-61 | finds a file of the hash if and only if there is one |
| BlobStore.Disk.PathFor | internal/storage/disk.go:65-77 | the exact key first, else any file of the hash |
| BlobStore.Disk.Store | internal/storage/disk.go:96-119 | the file is there afterwards, or nothing has changed |
| BlobStore.Disk.Has | internal/storage/disk.go:137-143 | true if and only if some file of the hash is stored |
| BlobStore.Disk.Delete | internal/storage/disk.go:122-134 | removes one file of the hash; `Has` is false afterwards exactly when there was at most one |
| BlobRecords.DroppedMeans | internal/server/blob_owners.go:117-141 | only that uploader goes, and no repeats appear |
| BlobRecords.AddThenDrop | internal/server/blob_owners.go:93-141 | a claim taken back at once leaves the record as it was |
| BlobRecords.BlobOwners.Add | internal/server/blob_owners.go:93-112 | appended once, at most fifty; a change is saved as a whole when the disk works |
| BlobRecords.BlobOwners.RemoveOne | internal/server/blob_owners.go:117-141 | the new record in memory and on disk, whether it changed and whether the blob has nobody left |
| BlobRecords.Blacklist.Remove | internal/server/blacklist.go:55-60 | one entry goes, in memory always, on disk when that works, which is reported |
| BlobRecords.Quarantine.Add | internal/server/quarantine.go:38-47 | entered once, with its first time; a change is saved when the disk works |
| BlobRecords.Blacklist.Add | internal/server/blacklist.go:43-53 | the reason is replaced, the first time kept, in memory always, on disk when that works, which is reported |
| BlobLifecycle.StepKeepsInv | internal/server/delete.go:47-94 | every handler and every restart keeps, whichever saves fail: every file is named by its hash and type; owner lists, in memory and on disk, are nonempty, at most fifty, without repeats and in the order of the claims |
| BlobLifecycle.RunKeepsInv | internal/server/blob_owners.go:93-154 | so it holds after every run from an empty node |
| BlobLifecycle.CoherentExactly | internal/server/blob_owners.go:35-41 | "a hash with an uploader is stored and not quarantined" is kept by every step but a restart whose records on disk contradict it |
| BlobLifecycle.RunIsCoherent | internal/server/quarantine.go:23-29 | so it holds after every run no restart of which found such records |
| BlobRestarts.Predicted | internal/server/delete.go:64-93 | whether a handler leaves a hash with an uploader, withheld, or stored, told for every hash from the state and the request |
| BlobRestarts.TornExactly | internal/server/blob_owners.go:158-165 | whatever has failed before, the records on disk contradict each other or the bytes after a handler if and only if: it writes only the uploaders and one is withheld by the old quarantine; or only the quarantine, or neither, and an old entry is withheld or loses its bytes |
| BlobRestarts.StaleExactly | internal/server/quarantine.go:60-67 | the same if and only if for a hash in the quarantine on disk that has no bytes |
| BlobRestarts.UntornRunIsCoherent | internal/server/delete.go:64-93 | over every run none of whose handlers does so, uploaders, bytes and quarantine agree in memory and on disk, through every restart |
| BlobRestarts.FirstTornExactly | internal/server/blob_owners.go:158-165 | with records in sync these are exactly: one half of a revival or quarantine saved without the other, a purge whose uploaders were not |
| BlobRestarts.LaterTear | internal/server/quarantine.go:60-67 | after a retraction of which nothing was saved, the saved release of another blob tears the records; the next restart has an owned, quarantined hash |
| BlobRestarts.SavedRunIsCoherent | internal/server/delete.go:64-93 | when every save succeeds memory and disk agree after every run, and so do uploaders, bytes and quarantine, restarts included |
| BlobGuarantees.OneObjectPerHash | internal/storage/disk.go:45-61 | after every run a hash has at most one file, its bytes hash to its name, and its extension is the detected one |
| BlobGuarantees.QuarantineEntry | internal/server/delete.go:79-90 | quarantine is entered exactly when the last uploader leaves a blob that no noted event links to, or a restart reads it |
| BlobGuarantees.AcceptedExactly | internal/server/upload.go:277-377 | an upload or claim is taken if and only if its author is not blocked, its hash not barred, bytes and type right or the blob there, and the backend works; then served and its author entered while there is room, else nothing changes |
| BlobGuarantees.DeletionRefused | internal/server/delete.go:64-84 | a stranger's deletion, and one the backend fails, change nothing |
| BlobGuarantees.SomeNodeServes | internal/server/upload.go:345-368 | the assumptions are met by a node, for any allow-list with zip, that serves its first upload |
| BlobGuarantees.FirstIsOriginal | internal/server/blob_owners.go:68-76 | the first uploader of a list has the earliest of the claims that stand |
| BlobGuarantees.ModerationTakesEffect | internal/server/admin.go:227-333 | barred is not served, saved or not, and only a saved entry purges; deleted leaves no bytes and no uploaders; released or lifted is served exactly when nothing else withholds it |
| BlobGuarantees.OthersUntouched | internal/server/delete.go:47-94 | no handler changes bytes, uploaders, quarantine or blacklist of a hash it is not about |
| BlobGuarantees.OnlyAdminRemovesBytes | internal/server/delete.go:64-93 | nobody but the admin removes or replaces bytes |
| BlobGuarantees.RetractIsOwn | internal/server/blob_owners.go:117-141 | a retraction removes that uploader of that hash and changes nobody else's record |
| BlobGuarantees.ClaimRevives | internal/server/claim.go:52-60 | the sole uploader's retraction withholds the blob unless it is referenced, and a new claim restores record and download exactly |
| BlobGuarantees.BlacklistExactly | internal/server/blacklist.go:27-33 | an entry stays in force through every step but lifting it and a restart whose file does not have it |
| BlobGuarantees.BlacklistOnDisk | internal/server/blacklist.go:78-83 | the file keeps an entry through every step that does not save a blacklist without it |
| BlobGuarantees.BlacklistHolds | internal/server/upload.go:277-377 | while in force, a hash is not served, gains no bytes, and gains uploaders only from a restart that reads them |
| BlobGuarantees.BlacklistAcrossRestart | internal/server/admin.go:264-292 | what a restart makes of an entry, of lifting it and of a purge's uploaders: if and only ifs on their saves |
| BlobGuarantees.UnsavedBlacklistServed | internal/server/admin.go:283-286 | an entry whose save failed bars the bytes until the next restart, after which they are uploaded and served |
| BlobGuarantees.BlacklistSticks | internal/server/admin.go:264-292 | after a saved entry and a purge that worked the blob is barred and absent through any run that does not lift it, restarts and failing saves included, and without uploaders if the disk had none left |
| BlobGuarantees.QuarantinedIsStoredExactly | internal/server/admin.go:227-249 | quarantined blobs stay stored on every step but the dashboard delete and blacklist purge of a quarantined one and a restart that reads such an entry, and on those never |
| BlobServer.Server.constructor | internal/server/server.go:88-248 | an empty node satisfies the invariant |
| BlobServer.Server.HandleUpload | internal/server/upload.go:277-377 | refines the upload step |
| BlobServer.Server.HandleClaim | internal/server/claim.go:17-62 | refines the claim step |
| BlobServer.Server.Uploaders | internal/server/blob_owners.go:68-89 | the list in the order of its claims, without repeats, and its first entry as the original uploader |
| BlobServer.Server.HandleDelete | internal/server/delete.go:47-94 | refines the deletion step in its admin, uploader and stranger branches |
| BlobServer.Server.HandleAdminBlobDelete | internal/server/admin.go:227-249 | refines the dashboard delete |
| BlobServer.Server.HandleBlacklistAdd | internal/server/admin.go:264-292 | refines blacklisting |
| BlobServer.Server.HandleBlacklistRemove | internal/server/admin.go:315-333 | refines lifting an entry |
| BlobServer.Server.HandleQuarantineRelease | internal/server/admin.go:296-312 | refines the release |
| BlobServer.Server.OnEventSaved | internal/server/relay.go:164-166 | refines noting an event |
| BlobServer.Server.HandleRestart | internal/server/blob_refs.go:166-196 | a restart reads the last saved records; the index holds the stored events the rebuild reaches, or a prefix when a query fails |
| RelayPolicy.StepKeepsInv | internal/server/relay.go:58-128 | every step keeps, whichever saves fail and whatever queries return: no stored event is deleted by its author, each is of an accepted kind and shape, dates in memory and on disk are the newest of the authors' own recorded deletions |
| RelayPolicy.RunKeepsInv | internal/server/deletions.go:42-78 | so it holds after every run of writes, mirrored writes, deletions, bans, sweeps and restarts |
| RelayPolicy.DiskBehind | internal/server/deletions.go:50-64 | the date on disk is never ahead of the one in memory |
| RelayPolicy.RestartKeepsInv | internal/server/deletions.go:34-40 | a restart that forgets deletions leaves no event stored that should be gone |
| Moderation.OnlyOwnTargetsGo | internal/server/deletions.go:70-78 | for every list of targets: accepted exactly when it names no stored event of somebody else; accepted or not, only named events of the requester go, and all of them if accepted |
| Moderation.OnlyOwnDatesMove | internal/server/deletions.go:70-78 | a date moves only for the key of a stored target of the requester, forward and to the request's date; accepted, it does move |
| Moderation.RefusedLeaves | internal/server/deletions.go:71-73 | a refused request has done exactly what its targets before the first foreign one ask for |
| Moderation.RefusedChangedNothing | internal/server/deletions.go:71-73 | it changed nothing if and only if none of those was stored |
| Moderation.LogMaxMeans | internal/server/deletions.go:42-57 | the recorded date bounds every recorded deletion of the key and is one of them |
| Moderation.DeletedByItsAuthor | internal/server/deletions.go:66-78 | in every reachable state an event counts as deleted only because its own author asked, no earlier than its date |
| Moderation.DeletedAtFallsExactly | internal/server/deletions.go:49-64 | a recorded date falls if and only if a restart forgets a newer deletion that no save caught |
| Moderation.UnsavedDeletionExactly | internal/server/deletions.go:70-78 | a deleted target stays away if and only if the deletion is dated no earlier, and after a restart if and only if it was saved besides |
| Moderation.DeletedStaysAway | internal/server/deletions.go:22-27 | once an event counts as deleted no run stores it again, by the record on disk through restarts, by the one in memory until one |
| Moderation.TakedownsExactly | internal/server/admin.go:452-477 | "no stored event has a banned key" is kept by every step but a ban that was not saved or whose query left an event out, and a restart that brings a ban back, and by those never |
| Moderation.BannedStaysAway | internal/server/banned_events.go:12-15 | a saved ban keeps every event with its key away through any run that does not lift it, restarts and other failing saves included |
| Moderation.BlockedStaysOut | internal/server/relay.go:59-61 | while an author is blocked, through any run that does not allow them again, everything of theirs is refused and nothing new stored but the node's own inventory |
| Moderation.BlockedAfter | internal/server/relay.go:171-183 | the block list changes by its own two calls only |
| Moderation.UnsavedBanExactly | internal/server/admin.go:471-474 | what a ban that could not be saved leaves, at once and after a restart |
| Moderation.UnsavedUnbanExactly | internal/server/banned_events.go:53-58 | a lifted ban returns at a restart if and only if lifting it was not saved and the file has it |
| Moderation.AnswerRank | internal/server/events.go:20 | a capped query leaves an event out if 1000 matches are newer, returns it if at most 1000 are as new; exactly by that rank for a date of its own |
| Moderation.TakedownReaches | internal/server/admin.go:501-521 | matching events outlive a takedown if and only if more than 1000 matched; one with the key itself only behind 1000 others |
| Moderation.TakedownOutlived | internal/server/admin.go:516-520 | 1001 events of one address, on a node that accepts every kind: one outlives any answer to the takedown's query |
| Moderation.SweepExactly | internal/server/deletions.go:96-105 | a sweep leaves expired requests if and only if there are more than 1000, and removes nothing else |
| Moderation.StoredShapes | internal/server/relay.go:81-127 | over every run only accepted kinds are stored, mods and jam events with an identifier and enough work, moderation tags by the admin alone, legacy mods tagged and before the cutoff |
| Moderation.InventoryEscapes | internal/server/ads_admin.go:203 | the inventory can be stored under a banned key |
| RelayPolicy.ReplaceKeepsNewest | internal/server/ingest.go:47-50 | one revision per address remains, the later of two, the smaller id on a tie; other addresses are untouched |
| RelayNode.Deletions.Record | internal/server/deletions.go:50-57 | only a newer date replaces a record |
| RelayNode.BannedEvents.Ban | internal/server/banned_events.go:46-51 | the key is banned with its reason, on disk too when that works |
| RelayNode.BannedEvents.Unban | internal/server/banned_events.go:53-58 | only that key is freed |
| RelayPolicy.AcceptExactly | internal/server/relay.go:58-128 | an event is accepted if and only if its author is not blocked, its key not taken down, it is dated past the author's deletion, and meets the rule of its kind, each written out, or on a node for every kind shows enough work |
| RelayPolicy.RefusalReasons | internal/server/relay.go:59-70 | which of these is reported first |
| RelayPolicy.AcceptedKinds | internal/server/relay.go:45-47 | the six kinds |
| RelayPolicy.AcceptedIsStored | internal/server/relay.go:149-157 | refused, nothing changes; accepted, a regular event is stored, a replaceable or addressable one stored or superseded by a later one at its address, an ephemeral one not kept |
| RelayPolicy.IdAboveMeans | internal/server/ingest.go:47-50 | ids compare like strings |
| RelayNode.Relay.Reject | internal/server/relay.go:58-128 | the verdict, checks in the source's order |
| RelayNode.Relay.Publish | internal/server/relay.go:149-157 | refines a live write and keeps the invariant |
| RelayNode.Relay.Ingest | internal/server/ingest.go:41-51 | refines a mirrored write and keeps the invariant |
| RelayNode.Relay.PutInventory | internal/server/server.go:173-175 | replaces at its address without asking the policy |
| RelayNode.Relay.OnDeletionOutcome | internal/server/deletions.go:70-78 | accepts exactly the author's own deletion; records it for accepted kinds |
| RelayNode.Relay.PublishDeletion | internal/server/relay.go:159-160 | refines a deletion request over its targets and keeps the invariant |
| RelayNode.Relay.DeleteStoredByKey | internal/server/admin.go:501-521 | the loop removes exactly what the key's capped query returned |
| RelayNode.Relay.QueryEvents | internal/server/events.go:20 | such an answer exists for every set of matching events |
| RelayNode.Relay.BanEvent | internal/server/admin.go:452-477 | refines a takedown and keeps the invariant |
| RelayNode.Relay.UnbanEvent | internal/server/admin.go:479-497 | refines lifting one |
| RelayNode.Relay.SweepDeletionEvents | internal/server/deletions.go:96-105 | removes exactly what its capped query returned |
| RelayNode.Relay.Reload | internal/server/deletions.go:34-40 | a restart reads back the last saved records |

## Left out

- BitRegroup.ConvertBits: regrouping is modelled from 8 to 5 bits only, the one use; for list elements that are not bytes (an identifier over 255 bytes) it states the number and range of the words, not their values.
- Nip19.NaddrEncode: the encoder of UTF-8 is a parameter, and so is the rounding of doubles beyond 2^53.
- PagedWalks.QueryEventsPaged: the free-text search is a parameter; what `matchesSearch` and `npubContains` look at is not modelled.
- StreamBody.StreamBody: time spent in writes is not counted, byte counters do not overflow, and a failed write is taken to have written nothing.
- GateTokens.PowVerifies: HMAC and SHA-256 are functions; that a token cannot be forged is not a statement of the model.
- BlobStore.OneFilePerHash: that equal hashes mean equal bytes is an assumption about the bodies that occur (`Hash.bodies`), written in `IsHash`; uploads are taken from them (`BlobLifecycle.Sane`).
- Mirroring.Backfill: pages are collected before their events are offered; the source offers each event as it arrives, and the relay's answers do not depend on what is stored here. That no two of the events at hand, the relay's and the stored ones, share an id is an assumption, written in `Checks`.
- RelayNode.Relay.PublishDeletion: the stored events a request refers to are given; finding them from its tags is khatru's, which is not part of this model.
- RelayNode.Relay.Publish: saving follows NIP-01 (`RelayPolicy.Save`, `RelayPolicy.Replace`); badger is not part of this model.
- BlobServer.Server.HandleRestart: a failed save leaves the previous file as it was; a file that is cut off in the middle of a write, and owner records in the older single-uploader form, are not modelled.
- UploadLimiter.Limiter.Drain: a second release that runs beside the first waits for it in the source (`sync.Once`); here it is a step that changes nothing.
- HTTP parsing and answers, CORS, JSON, authorization events and signatures.
- Write races between saving two snapshots, and temporary files left by a crash.
- Two handlers inside each other: the blob steps are whole handlers.
- The R2 backend beyond its keys, and loading, listing and stat of objects.
- Lookups without a result of their own (`has`, `deletedAt`, `refsFor`), which the classes contain but no row names.
- `rejectFilter`, admin listings, upload caps, the files of whitelist and blocklist, ad metrics and ad normalisation, announcements, the live subscription pool.
- Operation timeouts of the breaker and cancelled contexts.
