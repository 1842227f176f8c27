# Signalman, modelled and proved

Signalman drives virtual machines for test scenarios: a host program talks to an agent inside each guest, a UI sidecar in the guest drives the desktop and browsers, and a registry keeps signed scenario manifests. This project models the parts where a small slip is silent and expensive, and proves what they promise. `dafny verify dfyconfig.toml` checks it.

What is modelled, and the main result of each part:

- **Manifest signing** (`Utf`, `CanonicalJson`, `CanonicalRead`, `CanonicalNormal`, `CanonicalEquality`, `ManifestSigning`). Canonical JSON over UTF-16 text, its UTF-8 bytes, and signing and verifying them. Members are printed in the order of their keys' code units, and strings in the shortest well-formed way. Two values have the same canonical bytes exactly when they are the same up to member order and `undefined` members. A manifest carrying the signature made for another verifies exactly when the key is the signer's and the two agree up to that relation outside their `signature` member; and for every manifest at all, each verdict is told by what its `signature` holds.
- **Base64** (`Bits`, `Base64`, `Base64Symbols`, `Base64Laws`, `Base64Accumulator`). One encoder and two unrelated decoders, with their shifts and masks. The encoded text is, symbol by symbol, the one RFC 4648 defines by the bits of the input. Decoding undoes encoding whatever white space is added; re-encoding gives the text back exactly for canonical texts; the two decoders agree on every text padded in place and on every text with an invalid byte.
- **WebSocket frames and CDP calls** (`WebSocket`, `WebSocketClient`, `Cdp`). Writing a text frame with its payload masked bit by bit, reading frames from a stream past control frames, and matching responses to requests by id over a whole run of calls, from the bytes the peer sends up.
- **VM handle cache** (`HandleCache`, `VmResolve`, `VmInterleaving`, `VmStaleness`, `VmInvalidation`). The cache against its history without eviction, `resolveVM`, and every interleaving of its users: lookups, the `vm_list` and `vm_create` tools, and provisioning, which caches again what it found. The exact bound on the age of a handle given out, by what it has been through, with runs that attain it; and exactly when an invalidated handle can come back.
- **Key sequences** (`Strings`, `KeySequence`, `KeyLaws`, `KeySpellings`, `KeyEvents`, `KeysHeld`). Parsing against a printer and for every spelling of a key: either case, second names, numbered function keys. And the key events sent, of which the system may take only a part: their presses and releases nest properly but for a stroke cut short. From a keyboard with all keys up they leave all keys up exactly when no stroke was cut short, other than the Windows key as its own only modifier right after its own release; a sequence taken whole releases what it sent, and so leaves a keyboard as it was exactly when none of those keys was held.
- **Element selectors** (`Selector`). What each kind of selector finds; asking UI Automation for a narrower condition first loses no element that matches.
- **Typed text** (`SendKeys`). What an application receives after the text is quoted for PowerShell and escaped for `SendKeys`: the text itself exactly when it has no opening brace and no typographic quote.
- **Argument redaction** (`Redaction`). What the redacted arguments reveal: everything but the credential values, and nothing of those.
- **Command line** (`ArgvParser`, `ArgvLaws`). The parser against a printer of argument lists: it accepts exactly what the printer prints.
- **Run events** (`RunEvents`). The event queue, the status poll and the loop that follows a run: exactly when every event is printed.
- **Registry session** (`McpSession`, `McpOverlap`). The storages and servers one session opens and closes: exactly when a run leaks nothing and closes nothing twice, for calls one after the other and for calls that overlap in any way, starts and closes that fail included; and exactly when a session ends up on something closed.
- **File transfer** (`FileTransfer`, `FileUpload`). Chunked copies in both directions: the copy from a guest is a prefix of the file, and all of it unless the guest did not know the file's length at the last chunk; the copy to a guest is the file exactly when nothing was appended unheard since the last truncation and that truncation, if it is a leftover of the first write after its answer, was complete and followed no other chunk. That holds for every run but those where something is appended unheard after such a leftover; what the file then is, is stated for those too.

Where the code and its documentation disagree, the model follows the code:

- `cmdRun` is meant to print every event of a run, but each poll takes at most 1000 and the loop stops at the poll that sees the result (`RunEvents.CompleteExactly`, `RunEvents.BacklogLost`).
- The text typed through `SendKeys` is meant to arrive literally; an opening brace is escaped twice and makes the whole text invalid, and PowerShell takes four typographic quotes for quotes, which are not doubled (`SendKeys.ReceivedExactly`, `SendKeys.ApostropheLost`).
- `invalidate` is meant to force the next lookup to the backend; a call in flight that the backend has already answered, or that holds what it found, puts the handle back (`VmInvalidation.InvalidationExactly`).
- Entries are meant to expire after their lifetime; provisioning that finds a handle in the cache caches it again and so keeps it alive for ever (`VmStaleness.KeptForEver`).
- The reap verb documents `--dry-run`, and six other verbs look for flags the parser does not know; the parser never sets any of them (`ArgvLaws.UnknownFlagsNeverSet`).
- The comment on the credential table says `-u` itself is not redacted: the flag stays, but the value after it is redacted, whatever it is (`Redaction.UserRedacted`).
- `serve` is meant to be idempotent; two overlapping calls start two servers and forget one for good (`McpOverlap.OverlappingServesLeak`), and a start that fails without a session leaks a storage (`McpSession.SerialRunsClean`). A `stop` during a `serve` leaves a server running on a closed storage (`McpOverlap.ServesClosedStorage`).
- `copyFileToGuest` retries every write, including appending ones (`FileUpload.CopiedExactly`, `FileUpload.ResponseLost`, `FileUpload.LateTruncation`).
- `canonicalize` prints `[undefined]` like `[]`, and a number that is not finite like `null`; the relation `Same` counts them as equal, so the results need no exception.

## Model

| member | source | states |
|---|---|---|
| `Utf.Utf8RoundTrip` | registry/src/signing.ts:121 | text without lone surrogates survives UTF-8 encoding and decoding |
| `Utf.Utf8Onto` | guest/src/ui_sidecar.rs:1338 | every byte string that decodes is the encoding of what it decodes to |
| `Utf.Utf8Injective` | registry/src/signing.ts:121 | texts without lone surrogates with the same bytes are equal |
| `Utf.LoneReplaced` | registry/src/signing.ts:121 | a lone surrogate is written as the three bytes of U+FFFD, wherever it stands |
| `CanonicalJson.Sort` | registry/src/signing.ts:132-139 | sorting members keeps exactly the members |
| `CanonicalNormal.LexIsUnitOrder` | registry/src/signing.ts:132-134 | one key comes before another if and only if, at the first place where they differ, it has ended or has the smaller code unit |
| `CanonicalNormal.LexTotal` | registry/src/signing.ts:132-139 | comparing keys by code unit is a total order without ties |
| `CanonicalNormal.SortSorted` | registry/src/signing.ts:132-139 | members come out in key order |
| `CanonicalNormal.PrintedInOrder` | registry/src/signing.ts:131-139 | an object is printed between braces with exactly its defined members, in the order of their keys' code units |
| `CanonicalNormal.NormalizeKeeps` | registry/src/signing.ts:124-140 | every value has a normal form (sorted members, none `undefined`, at every depth) with the same canonical text |
| `CanonicalRead.NumUnitsListed` | registry/src/signing.ts:125-127 | a number is printed with the characters of a JSON number and no others |
| `CanonicalRead.CharsRoundTrip` | registry/src/signing.ts:125-127 | reading an escaped string gives it back, lone surrogates and control characters included |
| `CanonicalRead.EscapeShortest` | registry/src/signing.ts:125-127 | of all well-formed texts that denote a string, with hex digits in lower case, the one printed is a shortest |
| `CanonicalEquality.ReadNormal` | registry/src/signing.ts:124-140 | reading the canonical text of a normal value gives that value and stops where it ends |
| `CanonicalEquality.CanonicalRoundTrip` | registry/src/signing.ts:124-140 | reading canonical text gives the normal form, and canonicalizing that again changes nothing |
| `CanonicalEquality.SortedUnique` | registry/src/signing.ts:132-139 | members without a repeated key have one sorted order |
| `CanonicalEquality.SameIffNormal` | registry/src/signing.ts:124-140 | equality up to member order and `undefined` members is equality of normal forms |
| `CanonicalEquality.CanonicalExact` | registry/src/signing.ts:124-140 | same canonical text if and only if the same up to member order and `undefined` members, at every depth |
| `CanonicalEquality.InsertionOrderIrrelevant` | registry/src/signing.ts:132-139 | permuting an object's members does not change its canonical text |
| `CanonicalEquality.PrintedWellFormed` | registry/src/signing.ts:124-140 | canonical text never has a lone surrogate, so encoding it loses nothing |
| `CanonicalEquality.CanonicalBytesExact` | registry/src/signing.ts:118-140 | the same if-and-only-if for the UTF-8 bytes that are signed |
| `ManifestSigning.AttachStrip` | registry/src/npm/virtual.ts:246-249 | attaching a signature and stripping it gives the stripped manifest, and the attached signature is the one found |
| `ManifestSigning.SignedBytesExact` | registry/src/signing.ts:118-122 | two manifests have the same signed bytes if and only if they are the same apart from `signature`, member order and `undefined` members |
| `ManifestSigning.SignedBytesDenote` | registry/src/signing.ts:118-122 | the signed bytes, decoded and read, are the manifest without its `signature`, and nothing follows |
| `ManifestSigning.SomeSchemeIsIdeal` | registry/src/signing.ts:172-302 | there are signature schemes as ideal as the results below assume |
| `ManifestSigning.AcceptedExact` | registry/src/signing.ts:234-302 | a signature made for some bytes is accepted for a key and bytes if and only if the key is the signer's and the bytes are those |
| `ManifestSigning.SigningMeans` | registry/src/signing.ts:172-211 | a manifest can be signed if and only if the key is an Ed25519 key; the bytes returned are the manifest's and verify with the signature returned under the signer's key and no other |
| `ManifestSigning.VerdictMeans` | registry/src/signing.ts:234-302 | for every signature value, whatever it is: the first of the checks that fails, or acceptance if and only if it names the key and carries a text that verifies |
| `ManifestSigning.VerificationMeans` | registry/src/signing.ts:309-323 | every manifest is accepted if and only if the key is an Ed25519 key and the manifest bears a `signature` that names the key and verifies for the rest; it counts as unsigned if and only if it bears none but a falsy one |
| `ManifestSigning.InlineVerificationExact` | registry/src/signing.ts:309-323 | a manifest with another's signature verifies if and only if the key is the signer's and the manifests have the same signed content; another key's fingerprint is reported as a mismatch |
| `Bits.BitValue` | guest/src/ui_sidecar.rs:1302 | a bit by its place is the one worth that power of two |
| `Bits.XorBits` | guest/src/ui_sidecar.rs:1302 | exclusive or, bit by bit, on numbers of any size |
| `Bits.OrBits` | guest/src/service.rs:344-351 | or, bit by bit, on numbers of any size |
| `Base64.EncodeBase64` | guest/src/ui_sidecar.rs:1355-1376 | the chunk loop computes the encoding of every byte string |
| `Base64.PushChunk` | guest/src/ui_sidecar.rs:1359-1373 | one chunk appends its four symbols, padding for the bytes it lacks |
| `Base64Symbols.EncodedSymbols` | guest/src/ui_sidecar.rs:1355-1376 | every symbol is the letter of the next six bits of the input, or `=` where no bits are left, as section 4 of RFC 4648 defines it |
| `Base64Symbols.EncodedLength` | guest/src/ui_sidecar.rs:1357 | four symbols for every three bytes begun |
| `Base64Symbols.PaddingExactly` | guest/src/ui_sidecar.rs:1364-1373 | `=` stands exactly at the places of the last group without any bits of the input |
| `Base64Symbols.SpacesListed` | guest/src/service.rs:332 | the white space that is passed over: space, tab, line feed, form feed, carriage return |
| `Base64.DecodeBase64` | guest/src/service.rs:328-359 | the buffered loop decodes every input: the first invalid byte, an incomplete last group, or the decoded groups |
| `Base64.PushGroup` | guest/src/service.rs:344-351 | a full buffer appends the one to three bytes it holds |
| `Base64Laws.ChunkGroup` | guest/src/ui_sidecar.rs:1358-1374 | the symbols of a chunk form a canonical group and decode to the chunk |
| `Base64Laws.GroupChunk` | guest/src/service.rs:344-351 | a canonical group decodes to a chunk that encodes to it |
| `Base64Laws.EncodeCanonical` | guest/src/ui_sidecar.rs:1355-1376 | encoded text is canonical and its groups decode to the bytes |
| `Base64Laws.DecodeEncode` | guest/src/service.rs:328-359 | decoding encoded bytes, with white space anywhere, gives the bytes |
| `Base64Laws.CanonicalTexts` | guest/src/service.rs:328-359 | decoding and re-encoding gives a text back if and only if it is canonical |
| `Base64Laws.DecodeSucceeds` | guest/src/service.rs:328-359 | decoding succeeds if and only if every byte is a symbol or space and the symbols come in fours |
| `Base64Accumulator.ShiftedSum` | guest/src/main.rs:776-782 | the shift-and-or on the 32-bit accumulator is addition and stays below 4096 |
| `Base64Accumulator.DecodeB64` | guest/src/main.rs:763-785 | the accumulator loop computes its specification on every input |
| `Base64Accumulator.WellPaddedAgrees` | guest/src/main.rs:763-785 | on text padded in place, whatever its unused bits, the accumulator gives what decoding group by group gives |
| `Base64Accumulator.FailsAtFirstInvalid` | guest/src/main.rs:768-783 | the accumulator fails exactly when some byte is no symbol, with the first such byte |
| `Base64Accumulator.DecodersAgree` | guest/src/main.rs:763-785 | with any white space, the two decoders agree on every text with an invalid byte and on every text padded in place, and disagree on every other text whose symbols do not come in fours |
| `Base64Accumulator.AccumulatorDecodesEncoded` | guest/src/main.rs:763-785 | the accumulator decodes what the sidecar encodes |
| `WebSocket.ClientTextFrame` | guest/src/ui_sidecar.rs:1288-1305 | the frame written is the wire form of a masked final text frame in its shortest length form, and ends in the payload combined bit by bit with the mask bytes in turn |
| `WebSocket.PushMasked` | guest/src/ui_sidecar.rs:1301-1303 | the loop appends the masked payload |
| `WebSocket.MaskedBits` | guest/src/ui_sidecar.rs:1301-1303 | every bit of a masked byte is the sum without carry of the payload's and the mask's |
| `WebSocket.MaskedTwice` | guest/src/ui_sidecar.rs:1332-1336 | masking twice gives the payload back |
| `WebSocket.BigEndianRead` | guest/src/ui_sidecar.rs:1314-1322 | a length written big-endian is read back |
| `WebSocket.BigEndianWrite` | guest/src/ui_sidecar.rs:1314-1322 | every length field is the big-endian form of what it reads as |
| `WebSocket.BigEndianDigits` | guest/src/ui_sidecar.rs:1295-1299 | a length field holds the digits of the length to the base 256, the highest first |
| `WebSocket.ChosenFormIsMinimal` | guest/src/ui_sidecar.rs:1291-1299 | the chosen length form gives the strictly shortest frame |
| `WebSocket.ReadEncoded` | guest/src/ui_sidecar.rs:1307-1345 | reading the wire form of any frame, in any length form it fits, gives the frame and consumes exactly its bytes |
| `WebSocket.ReadFrameSound` | guest/src/ui_sidecar.rs:1307-1345 | whatever is read as a frame is the wire form of that frame |
| `WebSocket.SkipPassed` | guest/src/ui_sidecar.rs:1337-1343 | any run of frames that are neither text nor close is passed over |
| `WebSocket.FrameRoundTrip` | guest/src/ui_sidecar.rs:1288-1345 | a text frame written after any such run is read as its payload, exactly to its end, or reported as bad UTF-8 |
| `WebSocketClient.Stream.ReadExact` | guest/src/ui_sidecar.rs:1310 | takes exactly the bytes asked for, or fails at the end of the stream |
| `WebSocketClient.UnmaskInPlace` | guest/src/ui_sidecar.rs:1332-1336 | the buffer is unmasked in place |
| `WebSocketClient.ReadPayload` | guest/src/ui_sidecar.rs:1330-1336 | the unmasked payload, or failure at the end of the stream |
| `WebSocketClient.ReadExtendedLength` | guest/src/ui_sidecar.rs:1313-1322 | the length in any of the three forms |
| `WebSocketClient.ReadOneFrame` | guest/src/ui_sidecar.rs:1309-1336 | one frame, and the stream after it |
| `WebSocketClient.WebsocketReadText` | guest/src/ui_sidecar.rs:1307-1345 | the loop returns the first text message, close or failure of the specification and leaves the stream just after it |
| `Cdp.FramesAreItems` | guest/src/ui_sidecar.rs:965-971 | whatever frames the peer sends, in whatever length forms, the client reads exactly their items |
| `Cdp.Connection.Read` | guest/src/ui_sidecar.rs:966 | one message from the bytes at hand; a read that runs out loses what it had taken |
| `Cdp.Client.Next` | guest/src/ui_sidecar.rs:966-968 | the next item of all those the bytes amount to |
| `Cdp.Client.constructor` | guest/src/ui_sidecar.rs:950 | a new client has made no call |
| `Cdp.Client.Await` | guest/src/ui_sidecar.rs:965-972 | reading stops at the response with this id or at the first failure |
| `Cdp.Client.Request` | guest/src/ui_sidecar.rs:956-973 | a call uses up one 64-bit id, reads on in the byte stream from where the last one stopped, and keeps the run consistent |
| `Cdp.StopAt` | guest/src/ui_sidecar.rs:965-972 | the first item that ends a call |
| `Cdp.IdsCount` | guest/src/ui_sidecar.rs:950-958 | ids count up from one, and start again at zero after the greatest 64-bit number |
| `Cdp.CallsInOrder` | guest/src/ui_sidecar.rs:956-973 | a later call reads only what earlier ones left |
| `Cdp.RunDelivery` | guest/src/ui_sidecar.rs:956-973 | over a run every answer is a reply with its call's id and no reply answers twice; ids increase until they are used up |
| `Cdp.ResponseDelivery` | guest/src/ui_sidecar.rs:956-973 | the only reply with an id answers its call if and only if it comes after the call starts with no failure in between, and, until ids are used up, answers no other call |
| `HandleCache.VmCache.constructor` | host/src/vm-cache.ts:40-43 | an empty cache |
| `HandleCache.VmCache.Get` | host/src/vm-cache.ts:52-61 | the live entry under the folded name; an expired one is removed |
| `HandleCache.VmCache.Has` | host/src/vm-cache.ts:99-108 | whether `Get` would find one, with the same effect |
| `HandleCache.VmCache.Put` | host/src/vm-cache.ts:64-69 | an entry under the folded name, stamped with the clock |
| `HandleCache.VmCache.Invalidate` | host/src/vm-cache.ts:72-86 | the entry under the folded name is gone |
| `HandleCache.VmCache.Empty` | host/src/vm-cache.ts:89-91 | all entries are gone |
| `HandleCache.RunAgrees` | host/src/vm-cache.ts:31-109 | after every history the cache holds the last write to each key, except ones that stay expired |
| `HandleCache.EvictionUnobservable` | host/src/vm-cache.ts:52-61 | with a clock that does not run back, every lookup answers as a cache that never evicts |
| `HandleCache.RunExactly` | host/src/vm-cache.ts:31-109 | whatever the clock did, the cache holds exactly the last writes no look has since seen expired |
| `HandleCache.LookupExactly` | host/src/vm-cache.ts:52-61 | whatever the clock did, a lookup answers as a cache that never evicts, unless an entry live now was seen expired before |
| `HandleCache.ClockMustNotRunBack` | host/src/vm-cache.ts:56-58 | with a clock that runs back it need not |
| `VmResolve.CacheAll` | host/src/vm-cache.ts:140 | the loop caches every listed machine in order, each at its own reading of the clock |
| `VmResolve.SetsWrite` | host/src/vm-cache.ts:140 | under each name the last machine listed with it is cached, and other names are untouched |
| `VmResolve.ResolveVM` | host/src/vm-cache.ts:131-145 | a live entry is returned without a listing; otherwise the last machine listed under the name, unless already expired, or not found, or the listing's failure |
| `VmResolve.ResolvedFromListing` | host/src/vm-cache.ts:138-144 | the second lookup finds exactly the last machine listed under the name, unless its entry expired meanwhile |
| `VmInterleaving.HitAged` | host/src/vm-cache.ts:52-61 | a handle found in the cache was reported under that name and is at most one lifetime older than when it was cached |
| `VmInterleaving.ResumeKeepsInv` | host/src/vm-cache.ts:138-145 | a call the backend has answered caches what it was told, or holds what it looked for, and keeps the invariant |
| `VmInterleaving.KeepKeepsInv` | host/src/provisioning/provision.ts:157-169 | caching a handle found earlier keeps the invariant, with the time it was held added to its age |
| `VmInterleaving.MoveKeepsInv` | host/src/vm-cache.ts:119-145 | every step of every user keeps the invariant: entries, held handles and answers are no older than their history allows |
| `VmInterleaving.ExecKeepsInv` | host/src/vm-cache.ts:119-145 | and so does every run |
| `VmInterleaving.StalenessBound` | host/src/vm-cache.ts:8-14 | in every run, every handle given out was reported under the name asked for, and its age is at most the latency, a lifetime for each time it was given out and a hold for each time it was held |
| `VmStaleness.WithoutKeeping` | host/src/vm-cache.ts:8-14 | as long as no call caches what it found, nothing given out is older than the lifetime and one latency |
| `VmStaleness.AgeBoundExactly` | host/src/provisioning/provision.ts:463-475 | for everything a cached handle can have been through, some run exceeds a bound on its age if and only if the bound is below the latency plus those lifetimes and holds |
| `VmStaleness.LifetimeBoundExactly` | host/src/provisioning/provision.ts:157-169 | the lifetime and one latency bound the age if and only if the handle was neither reused nor held for any time |
| `VmStaleness.KeptForEver` | host/src/provisioning/bootstrap-win11.ts:331-334 | finding and caching a handle again and again exceeds every bound |
| `VmInvalidation.NextLookupAsksBackend` | host/src/vm-cache.ts:11-14 | a lookup right after an invalidation waits for a listing |
| `VmInvalidation.ExecRenewed` | host/src/vm-cache.ts:84-86 | in every run, what is cached or given out under the name stays newer than the invalidation if it was so at first |
| `VmInvalidation.InvalidationHolds` | host/src/vm-cache.ts:11-14 | if no call in flight may still cache a handle under the name, no run gives out one that only earlier reports have |
| `VmInvalidation.InvalidationUndone` | host/src/tools/vm-lifecycle.ts:31-51 | any call in flight that may still cache one does so after the invalidation, and the next lookup gives it out |
| `VmInvalidation.InvalidationExactly` | host/src/vm-cache.ts:11-14 | an invalidated handle can be given out again if and only if some call in flight may still cache one under the name: a lookup, a listing or a creation already answered, or a call holding what it found |
| `KeySequence.ReadToken` | guest/src/ui_sidecar.rs:2282-2289 | the characters up to the first closing brace, or none |
| `KeySequence.ReadBraced` | guest/src/ui_sidecar.rs:2281-2295 | a braced key name, or the error for one that is unclosed or unknown |
| `Strings.CasePairs` | guest/src/ui_sidecar.rs:2312 | the capital and the small form of each of the 26 letters are each other's |
| `Strings.NoCase` | guest/src/ui_sidecar.rs:2312 | no other character is changed by either conversion |
| `Strings.Trimmed` | guest/src/ui_sidecar.rs:2259 | trimming takes all Unicode white space from both ends and nothing else |
| `KeySequence.ParseNativeKeySequence` | guest/src/ui_sidecar.rs:2254-2364 | the loop computes the strokes of every sequence, or the unsupported-sequence error |
| `KeyLaws.NameRecognized` | guest/src/ui_sidecar.rs:2324-2361 | the name printed for a special key is recognized as that key |
| `KeyLaws.ParseModifiers` | guest/src/ui_sidecar.rs:2267-2280 | modifier prefixes in front of a key latch exactly those modifiers |
| `KeyLaws.PrintParse` | guest/src/ui_sidecar.rs:2254-2364 | every list of supported strokes, printed and parsed, comes back, each stroke with its own modifiers |
| `KeyLaws.ParsePrint` | guest/src/ui_sidecar.rs:2254-2364 | every accepted sequence gives supported strokes, and printing them gives a sequence that means the same |
| `KeySpellings.CaseDoesNotMatter` | guest/src/ui_sidecar.rs:2310-2314 | every sequence means what it means in capitals, inside braces and outside |
| `KeySpellings.CharsExactly` | guest/src/ui_sidecar.rs:2296-2316 | a character outside braces stands for a key if and only if it is the key's printed text in either case, or the space |
| `KeySpellings.FunctionKeysExactly` | guest/src/ui_sidecar.rs:2330-2336 | a name stands for a function key if and only if it is an F, perhaps a plus sign, any zeros and a number from 1 to 24 |
| `KeySpellings.TokensExactly` | guest/src/ui_sidecar.rs:2324-2361 | a braced token stands for a key if and only if, trimmed and in capitals, it is the name printed, one of the fifteen second names or a function key's |
| `KeySpellings.SpelledAlike` | guest/src/ui_sidecar.rs:2281-2295 | whichever name of a key is in the braces, and whatever modifiers are in front, the sequence means what it means with the key as printed |
| `KeyEvents.CollectModifiers` | guest/src/ui_sidecar.rs:2193-2205 | the modifier keys, in a fixed order |
| `KeyEvents.ModifierCodes` | guest/src/ui_sidecar.rs:2193-2205 | the modifiers by their virtual-key codes: control 0x11, shift 0x10, alt 0x12, Windows 0x5B, in this order |
| `KeyEvents.SendVirtualKey` | guest/src/ui_sidecar.rs:2185-2235 | modifiers down, key down and up, modifiers up in reverse, as far as the system takes them, and whether it took them all |
| `KeyEvents.SendKeySequence` | guest/src/ui_sidecar.rs:2175-2182 | the events of the strokes, repeated, up to the first stroke not taken whole; the unsupported-sequence error only if there is a repetition |
| `KeyEvents.SequenceNests` | guest/src/ui_sidecar.rs:2175-2235 | the events sent, for any sequence and however far each stroke was taken, are properly nested, except that presses of a stroke cut short stay unmatched |
| `KeyEvents.PressesMatchedExactly` | guest/src/ui_sidecar.rs:2214-2217 | every press is matched by a release, in nested order, if and only if no stroke was cut short |
| `KeysHeld.StrokeHolds` | guest/src/ui_sidecar.rs:2185-2235 | at the key press exactly the key and its modifiers are held, and nothing afterwards, when nothing was held before |
| `KeysHeld.ModifiersHeldThroughout` | guest/src/ui_sidecar.rs:2185-2235 | a stroke's modifiers stay held until their release if and only if the Windows key is not both key and modifier |
| `KeysHeld.SequenceHolds` | guest/src/ui_sidecar.rs:2175-2235 | which keys are held in the end, for any sequence, any keys held before it and however far each stroke was taken: those of strokes taken whole are up, and a stroke cut short leaves what it had pressed and not released |
| `KeysHeld.WholeRestoresExactly` | guest/src/ui_sidecar.rs:2175-2235 | a sequence taken whole leaves held what was held but for the keys it sent, and so restores the keyboard if and only if none of them was held |
| `KeysHeld.PartLeavesKeys` | guest/src/ui_sidecar.rs:2193-2217 | a supported stroke taken in part leaves all keys up if and only if nothing or everything of it was taken, or it is the Windows key as its own only modifier, taken up to its own release |
| `KeysHeld.KeysRestoredExactly` | guest/src/ui_sidecar.rs:2214-2217 | from a keyboard with all keys up, any supported sequence leaves all keys up if and only if no stroke was cut short so as to leave a key down |
| `KeysHeld.AcceptedKeysRestoredExactly` | guest/src/ui_sidecar.rs:2175-2182 | the same for every sequence the parser accepts, however often repeated |
| `Selector.TablesInverse` | guest/src/ui_sidecar.rs:1693-1775 | a printed control type, lower-cased, names that type and no other; a numeric one names none |
| `Selector.DecimalDigits` | guest/src/ui_sidecar.rs:1773 | an unknown type is printed as its number in decimal |
| `Selector.ConditionNecessary` | guest/src/ui_sidecar.rs:1592-1630 | every element that matches a selector satisfies the condition built for it |
| `Selector.ConditionExact` | guest/src/ui_sidecar.rs:1603-1614 | for a name, an automation id or a class name the condition asks for what matches and nothing more |
| `Selector.TypeConditionExact` | guest/src/ui_sidecar.rs:1615-1623 | for a control type it asks for the type the tables know by that name in any case, and otherwise for nothing |
| `Selector.PrefilterLosesNothing` | guest/src/ui_sidecar.rs:1778-1803 | filtering by the condition first does not change what matches |
| `Selector.Keep` | guest/src/ui_sidecar.rs:1793-1801 | the loop keeps exactly the elements that pass, in order |
| `Selector.Collect` | guest/src/ui_sidecar.rs:1778-1803 | exactly the matching descendants, in order |
| `Selector.PropertySelectors` | guest/src/ui_sidecar.rs:2432-2454 | a text is the property selector for a known key and a value if and only if, trimmed, it is that selector printed |
| `Selector.PropertyMatches` | guest/src/ui_sidecar.rs:2457-2467 | a selector for a name, an automation id, a class name or a value finds the elements that show exactly that |
| `Selector.TypeMatches` | guest/src/ui_sidecar.rs:2463-2466 | a selector for a control type finds the elements of the type it names, with the prefix any number of times in front |
| `Selector.TextMatches` | guest/src/ui_sidecar.rs:2457-2470 | any other text finds the elements with it in their name or as their automation id, and no text finds all |
| `SendKeys.EscapeConcat` | guest/src/ui_sidecar.rs:2798-2806 | the chain of replacements works character by character |
| `SendKeys.OnePass` | guest/src/ui_sidecar.rs:2792-2806 | quoting and the eight replacements are one substitution per character |
| `SendKeys.UnquoteEscaped` | guest/src/ui_sidecar.rs:2626-2628 | what PowerShell reads from the escaped text, for every text: of each two quotes in a row the second |
| `SendKeys.SurvivingLength` | guest/src/ui_sidecar.rs:2626-2628 | every other typographic quote is lost |
| `SendKeys.UnescapedRefused` | guest/src/ui_sidecar.rs:2798-2806 | a text that starts with one of the characters escaped, as it is, is not typed as it is |
| `SendKeys.TypedAll` | guest/src/ui_sidecar.rs:2792-2806 | `SendKeys` types the text, or rejects it if it has an opening brace |
| `SendKeys.ReceivedIs` | guest/src/ui_sidecar.rs:2792-2806 | what is received, for every text |
| `SendKeys.ReceivedExactly` | guest/src/ui_sidecar.rs:2792-2806 | the application receives the text if and only if it has no opening brace and none of the four typographic quotes; with a brace, nothing |
| `SendKeys.ApostropheLost` | guest/src/ui_sidecar.rs:2626-2628 | a typographic apostrophe before a character that is no quote loses the whole text |
| `Redaction.RedactLoop` | guest/src/service.rs:276-309 | the loop computes the redaction for any credential test |
| `Redaction.RedactCredentialArgs` | guest/src/service.rs:248-309 | and with the table of credential flags |
| `Redaction.ClassifyExactly` | guest/src/service.rs:248-300 | an argument names the next as a secret, or carries one, if and only if it is one dash or two with a credential's name, alone or before an equals sign |
| `Redaction.NamedValuesRedacted` | guest/src/service.rs:227-309 | the value of each of the seventeen names, in any case and with one dash or two, is replaced wherever the flag is met |
| `Redaction.SecretsHidden` | guest/src/service.rs:276-309 | arguments that differ only in credential values are redacted to the same |
| `Redaction.RestShown` | guest/src/service.rs:276-309 | arguments redacted to the same differ only in credential values |
| `Redaction.RedactionExact` | guest/src/service.rs:227-309 | both, for the table of credential flags |
| `Redaction.RedactIdempotent` | guest/src/service.rs:276-309 | redacting twice changes nothing more |
| `Redaction.UserRedacted` | guest/src/service.rs:243-244 | the value after `-u` is redacted, whatever it is |
| `ArgvParser.ParseLoop` | host/src/cli.ts:152-203 | the loop computes the parse for any table of flags |
| `ArgvParser.ParseArgs` | host/src/cli.ts:152-203 | and with the ten boolean flags |
| `ArgvLaws.ParseItems` | host/src/cli.ts:152-203 | printed items in front of anything add their meaning to what is parsed so far |
| `ArgvLaws.ParsePrint` | host/src/cli.ts:152-203 | every list of proper items in any order, with anything after `--`, parses to its meaning |
| `ArgvLaws.ParsedIsPrinted` | host/src/cli.ts:152-203 | every accepted command line is some list of proper items printed |
| `ArgvLaws.ParsesExactly` | host/src/cli.ts:152-203 | a command line is accepted if and only if it is a list of proper items printed |
| `ArgvLaws.JoinedOrSpaced` | host/src/cli.ts:164-198 | `--key value` and `--key=value` mean the same anywhere |
| `ArgvLaws.FlagSet` | host/src/cli.ts:169-186 | each of the ten flags is set, whatever came before it, and nothing else changes |
| `ArgvLaws.ParamSet` | host/src/cli.ts:187-194 | `--param` sets the parameter before the equals sign, whatever came before it, except `__proto__`, which stays unset |
| `ArgvLaws.FlagsFromTable` | host/src/cli.ts:169-186 | only names in the table are ever set as flags |
| `ArgvLaws.OptionTakesNext` | host/src/cli.ts:195-198 | an option outside the table takes the next argument as its value, and is an error at the end |
| `ArgvLaws.OnlyTableFlags` | host/src/cli.ts:164-198 | no command line sets any flag outside the table |
| `ArgvLaws.UnknownFlagsNeverSet` | host/src/cli.ts:1881 | so none of the seven other flags the verbs look for is ever set |
| `RunEvents.EventQueue.constructor` | host/src/output/envelope.ts:374-378 | an empty queue |
| `RunEvents.EventQueue.Push` | host/src/output/envelope.ts:381-391 | events are numbered in order unless they bring their own number, and are kept |
| `RunEvents.EventQueue.Drain` | host/src/output/envelope.ts:394-398 | the events from `since` on, at most `limit`, and the number after the last of them; a stretch of the log when events are numbered in order |
| `RunEvents.FromNumbered` | host/src/output/envelope.ts:395 | filtering numbered events by number is taking a suffix |
| `RunEvents.PrintNew` | host/src/cli.ts:342-347 | one poll prints the next events in order without gap or repetition |
| `RunEvents.Follow` | host/src/cli.ts:339-359 | the loop stops at the first poll that sees the result, having printed a prefix of the events |
| `RunEvents.PrintedExactly` | host/src/verbs/status.ts:77 | how many events are printed after any number of polls, without the recurrence |
| `RunEvents.CompleteExactly` | host/src/cli.ts:339-359 | every event is printed if and only if at no poll were more events still to come than the remaining polls can take |
| `RunEvents.BacklogLost` | host/src/verbs/status.ts:17 | a run that finishes before its first poll with more than 1000 events loses the rest |
| `McpSession.RegistryMcpSession.constructor` | registry/src/mcp.ts:65-71 | no session |
| `McpSession.RegistryMcpSession.Serve` | registry/src/mcp.ts:73-101 | a running server is returned; otherwise one is started on the session's storage or a new one |
| `McpSession.RegistryMcpSession.Status` | registry/src/mcp.ts:103-114 | whether a server is running, and which |
| `McpSession.RegistryMcpSession.Stop` | registry/src/mcp.ts:116-123 | the session's server and storage are closed and the session is gone; if closing the server fails, the storage stays open and the session stays |
| `McpSession.RegistryMcpSession.EnsureStorage` | registry/src/mcp.ts:126-134 | the session's storage, opened if there was none |
| `McpSession.PerformClean` | registry/src/mcp.ts:73-134 | every operation but a failed first start and a failed close keeps: what was opened is closed once or still held |
| `McpSession.SerialRunsClean` | registry/src/mcp.ts:73-134 | a run of calls one after the other leaks nothing and closes nothing twice or early if and only if no start fails without a session and no server fails to close |
| `McpSession.LeakStays` | registry/src/mcp.ts:87-94 | a leaked storage is never closed by anything that follows |
| `McpSession.OverclosedStays` | registry/src/mcp.ts:116-123 | a server that failed to close is still held, or closed again, whatever follows |
| `McpOverlap.UndisturbedCalls` | registry/src/mcp.ts:73-123 | a call split at its await, with nothing in between, does what the whole call does, and `ensureStorage` can always be called |
| `McpOverlap.ForgottenForever` | registry/src/mcp.ts:78-94 | a server no session or pending stop refers to is never closed by any run |
| `McpOverlap.ForgetsStep` | registry/src/mcp.ts:94 | a step leaves a server nobody can close if and only if the session lets go of one that was not closed |
| `McpOverlap.LosesStep` | registry/src/mcp.ts:87-94 | a step leaves a storage nobody can close if and only if the last reference to an open one goes |
| `McpOverlap.ClosesAgainStep` | registry/src/mcp.ts:116-121 | a step closes something twice if and only if it closes what was closed |
| `McpOverlap.OverlappingRunsTidy` | registry/src/mcp.ts:73-134 | for every run of overlapping calls: no server is forgotten, no storage is lost, nothing is closed twice, each if and only if no step of the run does it |
| `McpOverlap.OverlappingServesLeak` | registry/src/mcp.ts:78-94 | two overlapping starts leave the first server running for good, whatever follows |
| `McpOverlap.VerdictStep` | registry/src/mcp.ts:89-121 | whether the session is on something closed after a step: a start says so if its storage was closed meanwhile, a stop of a running server says so until it ends, any other change of the session says not |
| `McpOverlap.HoldsClosedExactly` | registry/src/mcp.ts:73-134 | for every run of overlapping calls: the session ends up on a closed server or storage if and only if the last step that says anything says so |
| `McpOverlap.ServesClosedStorage` | registry/src/mcp.ts:87-121 | a stop during a start leaves a running server on a closed storage, with nothing leaked or closed twice |
| `McpOverlap.OverlappingStopsCloseTwice` | registry/src/mcp.ts:116-123 | two overlapping stops call close on the server twice, and on the storage twice unless the second close of the server fails; the session is gone either way |
| `FileTransfer.ReadFile` | guest/src/file_ops.rs:56-101 | with no limit everything from the offset up to the cap; with one, a non-empty part of it unless the file has ended |
| `FileTransfer.ReadFileRpc` | guest/src/service.rs:1329-1334 | the data, and whether more follows, when the length is known |
| `FileTransfer.CopyFileFromGuest` | host/src/scenarios/orchestrator.ts:1040-1051 | whatever the chunk size and however short the reads, the host's file is the chunks in order, a prefix of the guest's; it is all of it unless the copy ended at a chunk for which the length was not known |
| `FileUpload.GuestFile.WriteFile` | guest/src/file_ops.rs:194-209 | the data replaces or extends the file |
| `FileUpload.WriteWithRetry` | host/src/guest/client.ts:353-375 | success, and the file's content as a replay of everything the guest did, for every way the attempts can go: written in part, unheard, or by leftovers of earlier attempts |
| `FileUpload.HistoryAnswered` | host/src/guest/client.ts:1195-1216 | a call that succeeds ends with its one answered write |
| `FileUpload.CopyFileToGuest` | host/src/scenarios/orchestrator.ts:998-1012 | the chunks are the host's file in order, and the guest's file is the replay of everything done while they were sent |
| `FileUpload.ContentIs` | host/src/scenarios/orchestrator.ts:998-1012 | what the guest's file is for every run whose first chunk was answered: the last truncating write and everything appended since, heard of or not |
| `FileUpload.CopiedExactly` | host/src/scenarios/orchestrator.ts:998-1012 | the guest's file is the host's if and only if nothing was appended unheard since the last truncation and that truncation, if it is a leftover of the first write after its answer, was complete and followed no other chunk; for every run but those where an unheard append follows such a leftover |
| `FileUpload.ResponseLost` | host/src/guest/client.ts:1195-1216 | an appended chunk written in part or whole by an attempt whose response was lost is there before the chunk, though every call succeeds |
| `FileUpload.LateTruncation` | host/src/guest/client.ts:320-330 | a leftover of the first write that outlives the next chunk undoes it |
| `FileUpload.MishapsMend` | host/src/guest/client.ts:353-375 | why those runs are told apart: a leftover append can mend what a late truncation broke |

## Left out

- `followJob`, the PowerShell helper process, the HTTP reader and writer of the browser sidecar, `copyFileToGuestViaHttp`, and the backend's own file copy.
- `PinSet`, token lookup and constant-time comparison, denied-command matching, path validation.
- Ed25519, SHA-256 and PEM parsing: a scheme is any functions for which a signature verifies exactly under its own key and for its own message.
- Numbers in JSON are opaque tokens, as `JSON.stringify` prints them; `toJSON`, getters, symbols and cycles are not values of the model.
- `toLowerCase` in the cache is an arbitrary function `fold`; the clock and the backend's answers are parameters.
- Rust strings are sequences of Unicode scalar values; their byte form is not modelled.
- WebSocket fragmentation: the code ignores the final bit, and so does the model. Allocation failure for a large payload is not modelled.
- Cdp.Client.Request: the id counter wraps around, as it does in a release build; a debug build stops there.
- UI Automation's numeric control-type ids and string conversion; an element is what the sidecar reports of it, and it does not change between the two filters.
- RunEvents.Follow: does not model polling for a run that is unknown, which never ends.
- FileUpload.CopiedExactly: leaves to `FileUpload.ContentIs` the runs in which bytes appended unheard follow a late leftover of the first write, where the two mishaps may mend each other; and a handler's write is one step, not interleaved with another's.
- Base64Accumulator.DecodersAgree: leaves open texts with padding inside, where agreement depends on the bits.
- McpSession.RegistryMcpSession.Stop: counts calls of `close`, and does not say whether a server whose `close` failed still runs.
- VmInterleaving.StalenessBound: the clock of the runs in `VmInterleaving` never goes back, while the source reads `Date.now`, which can; that this matters is shown for the cache by `HandleCache.ClockMustNotRunBack`.
- FileTransfer.CopyFileFromGuest: does not model a file that changes while it is copied.
