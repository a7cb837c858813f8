# Verification models for stumpfworks-framework

Dafny models of the parts of the framework whose correctness is not visible from one function body, with proofs of what
they promise. `dafny verify dfyconfig.toml` checks the whole project.

- **LDAP framing guard** (`Ber.dfy`, `BerLimits.dfy`, `BerValidator.dfy`, `Framing.dfy`). `Ber.dfy` is a declarative
  grammar: trees, their encodings, their sizes; `BerLimits.dfy` ties it to bits, octets and plain numbers. The recursive
  validator is proved to accept exactly the encodings of in-budget trees, and the connection stack (socket, byte budget,
  framing guard) to hand out a prefix of the peer's bytes made of whole messages, and to hand out in full whatever is
  certain to arrive.
  The format is the LDAPMessage of section 4.1.1 of RFC 4511 with the definite lengths of section 5.1 of RFC 4511;
  identifier and length octets follow section 8.1 of ITU-T X.690.
- **OIDC pending logins** (`Base64Url.dfy`, `Login.dfy`, `TransactionStore.dfy`, `LoginProtocol.dfy`, `StoreSteps.dfy`,
  `StateReuse.dfy`, `TransactionCodec.dfy`). The store is a class that refines a plain bounded map; the protocol is a
  state machine whose actions are the points at which concurrent callers can observe each other, and without interruption
  it is that bounded map again; the codec is proved to open exactly what it sealed. Base64url follows sections 3.2 and 5
  of RFC 4648.
- **OIDC configuration cache** (`ConfigurationCache.dfy`): the sequential cache, its two-lock protocol at the grain of
  single field accesses, and the timing of the refresh loop.
- **Migrations** (`MigrationFiles.dfy`, `MigrationRunner.dfy`, `MigrationProtocol.dfy`): loading, one run, and any number
  of concurrent runners.
- **Metrics, readiness, concurrency limit** (`MetricLabels.dfy`, `Metrics.dfy`, `ScrapeProtocol.dfy`, `Readiness.dfy`,
  `ConcurrencyLimit.dfy`).
- `Octets.dfy`, `Numerals.dfy` and `Sorting.dfy` hold what the others share.

## How to read the models

- Every protocol (`LoginProtocol`, `CacheProtocol`, `MigrationProtocol`, `ScrapeProtocol`, `CheckGoroutines`, `ConcurrencyLimit`) has
  `Enabled` and `Do` for one action and `Legal` and `Final` for a run, which is any sequence of enabled actions. Theorems
  about runs quantify over all of them.
- Byte values are integers below 256; the source's bit tests appear as division and remainder. Times are integer
  nanoseconds. OIDC strings are octet strings.
- The environment is a parameter: what the socket delivers (`Arrival`), clock readings, random bytes, what discovery, SQL
  and checks return.
- SHA-256 is a function assumed injective. AES-GCM is an ideal cipher: the key remembers what it sealed and opens nothing
  else. A pure injective function would not do, since a 16-octet tag cannot separate all inputs.

## Results that differ from what one might expect

- One use holds per transaction object, not per state string. A sealed record can be opened again after its transaction
  was exchanged, and the second transaction is exchanged too (`OpenedTwice`). From any state of the protocol, a state
  string is safe from a second exchange if and only if at most one transaction with it is live
  (`OneUsePerStateExactly`); two live ones can always both be exchanged (`SharedStateExchangedTwice`).
- Below capacity even a dead entry keeps its state occupied (`PutAccepts` gives the exact condition).
- `Run` checks `interval <= maxAge / 2` so that a failed refresh can be retried in time. `RetryMargin` gives the exact
  condition, which also has to leave room for the refresh itself.
- A deadline equal to Go's zero time would count as no deadline (`DeadlineRespected`); the cache cannot produce one on a
  clock past year 1 (`BeginBeforeDeadline`).
- The length prefixes of the associated data lose the high bits of lengths from 2^32 on, so the byte layout by itself is
  unambiguous exactly below that length (`UnambiguousExactly`). No two clients are affected: an issuer that parsed as a
  URL has no zero octet and a client ID has at most 256 octets, and that already separates all clients, whatever the
  lengths of issuer and redirect URI (`AdmissibleInjective`).

## Model

| member | source | states |
|---|---|---|
| `BerGrammar.HeaderUnique` | directory/ldap/framing.go:91-129 | identifier and length octets delimit themselves: two valid headers at the front of the same bytes are equal, spell the same length and leave the same rest |
| `BerGrammar.EncodeUnique` | directory/ldap/framing.go:86-140 | the encoding is a prefix code: two well-formed elements at the front of the same bytes are the same tree |
| `BerGrammar.WidestBound` | directory/ldap/framing.go:119-128 | no contents anywhere in a tree are longer than its whole encoding, so the frame size alone bounds every length inside |
| `BerGrammar.MessageUnique` | directory/ldap/framing.go:74-84 | the tree of an accepted frame is unique |
| `BerLimits.BitTests` | directory/ldap/framing.go:93-130 | the three tests of an octet are the source's masks 0x20, 0x1f and 0x80 on eight bits |
| `BerLimits.ValidHighExactly` | directory/ldap/framing.go:93-106 | identifier octets behind the first: none, or one to five of which exactly the last has its top bit clear, by the same masks |
| `BerLimits.SpellsLengthExactly` | directory/ldap/framing.go:107-125 | a length is spelled by its one-octet numeral below 128, or by a count of one to four and a base-256 numeral of that many octets |
| `BerLimits.MessageExactly` | directory/ldap/framing.go:74-90 | a message is a well-formed SEQUENCE of at most 2^20 octets and 4096 elements in which no descent from the root has 33 steps |
| `BerLimits.MessageContents` | directory/ldap/framing.go:130-138 | every message is constructed, and its contents are the concatenation of its well-formed children, as long as its length octets say |
| `BerLimits.WideExactly` | directory/ldap/framing_test.go:33-37 | a SEQUENCE of n empty strings is a message exactly up to n = 4095, in every form of its length octets |
| `BerLimits.FirstElementFits` | directory/ldap/framing.go:126-128 | in a frame with short forms the first element announces no more octets than follow it |
| `BerLimits.MalformedRefused` | directory/ldap/framing_test.go:37 | the malformed frames of the test are the encoding of no message |
| `BerLimits.AnyStringAccepted` | directory/ldap/framing_test.go:21-26 | primitive contents are not interpreted: a SEQUENCE of one octet string is a message whatever the string |
| `BerValidator.AccumulateLength` | directory/ldap/framing.go:117-123 | the guarded shift loop succeeds exactly when the big-endian value is at most 2^20+255, returns that value, and no intermediate value exceeds that bound |
| `BerValidator.SkipIdentifier` | directory/ldap/framing.go:91-106 | stops behind a valid tag number of at most five octets, or there is none at the front of the data |
| `BerValidator.ReadLength` | directory/ldap/framing.go:107-125 | the octets read spell the returned length in the short form or the long form with one to four octets; on error no octets at this place spell a length within the limit |
| `BerValidator.ReadHeader` | directory/ldap/framing.go:91-129 | succeeds exactly when some valid header with all its contents present is at the front of the data, and returns that header's end and length |
| `BerValidator.RejectedChild` | directory/ldap/framing.go:130-138 | if no in-budget element starts where the next child should, then no in-budget parent starts at the front of the data |
| `BerValidator.ValidateElement` | directory/ldap/framing.go:86-140 | success means a well-formed in-budget element occupies exactly the returned prefix and the shared counter grew by its nodes; failure means no in-budget element starts here; the counter never passes 4097 and no call is deeper than 33; every call gets a strictly shorter slice |
| `BerValidator.ValidateChildren` | directory/ldap/framing.go:130-138 | the loop over constructed contents either splits them exactly into in-budget elements or proves that no in-budget parent exists |
| `BerValidator.ValidateFrame` | directory/ldap/framing.go:74-84 | sound and complete: accepts a byte string exactly when it is the encoding of a message tree (tag 0x30, at most 2^20 bytes, 4096 nodes, 32 levels); at most 4097 element calls and depth 33 for every input |
| `Framing.BoundedConn.Read` | directory/ldap/reader.go:90-100 | bytes taken from the socket plus the remaining budget stay 2^20; a read delivers the least of what has arrived, the slice, the budget and the rest of the stream, into the slice and nowhere else; an error is exactly what the socket answers, or UnexpectedEof once the budget is used up |
| `Framing.BoundedConn.ReadFull` | directory/ldap/framing.go:30-32 | io.ReadFull under arbitrary short reads: it succeeds exactly when all bytes were taken, and then the slice holds exactly the next bytes of the stream; it is certain to succeed within reach of the reads that bring something, and fails only if a socket read reported an error during the call or the budget ran out |
| `Framing.ExtentExact` | directory/ldap/framing.go:33-59 | Read's header parse and the grammar agree on where every SEQUENCE at the front of the bytes ends |
| `Framing.AssembledFrameIsWhole` | directory/ldap/framing.go:57-67 | on a frame of the length its own header announces, every element found at its front is the whole frame, so the `end != len(frame)` test never fails |
| `Framing.RefusedNoMessage` | directory/ldap/framing.go:33-59 | the headers Read refuses before reading contents start no message at all |
| `Framing.ReadLongLength` | directory/ldap/framing.go:39-55 | reads the announced number of length octets and returns their value, refusing exactly the values above the limit; other errors only when the connection broke before the last of them |
| `Framing.ReadFrameHeader` | directory/ldap/framing.go:29-59 | consumes exactly the header octets; success gives the extent, InvalidFrame only for a refused header, other errors only when the connection broke before the header announced an extent |
| `Framing.ReadContents` | directory/ldap/framing.go:60-64 | the assembled frame is header plus contents, equal to the bytes consumed from the stream; errors only when the connection broke before the announced end |
| `Framing.ReadFrame` | directory/ldap/framing.go:29-67 | success consumes exactly one message; InvalidFrame means no message starts at this place of the stream; any other error means a socket error or the end of the budget before the announced frame was complete; a message that is next in the stream and certain to arrive is the one returned |
| `Framing.FramedConn.Fill` | directory/ldap/framing.go:25-70 | an exhausted buffer is replaced by exactly one more message, the next one of the stream whenever that is certain to arrive; errors leave the accepted messages as they were, and after sixteen frames there is only InvalidFrame |
| `Framing.FramedConn.Read` | directory/ldap/framing.go:21-72 | hands out the least of the slice and what is buffered, from the frame in progress or from the next message, which is accepted whenever it is certain to arrive; keeps the accounting of accepted messages; fails only with an empty buffer, refuses a frame exactly after the sixteenth or only where no message starts, and reports a transport error only for a socket error or a used-up budget in the middle of a frame |
| `Framing.FramedConn.Guarantee` | directory/ldap/framing.go:12-19 | at any time the bytes handed out are whole messages up to the one being read, at most 16 messages and 2^20 bytes; until the first error they are a prefix of the peer's bytes |
| `Framing.Session` | directory/ldap/reader.go:189 | over the whole connection up to its first error, for every sequence of buffer sizes and every pattern of short socket reads: a prefix of the peer's bytes made of whole messages; up to sixteen messages that are certain to arrive are handed out in full before any error, and after as many reads as they have bytes |
| `Base64Url.RoundTrip` | auth/oidc/store.go:83-84 | decoding undoes encoding for every octet string |
| `Base64Url.UrlAlphabet` | auth/oidc/store.go:83-84 | the letters are A-Z, a-z, 0-9, '-' and '_' in this order |
| `Base64Url.SameNumber` | auth/oidc/store.go:83-84 | encoding only regroups bits: the sextets spell the number the octets spell, shifted by the zero bits that fill up the last sextet |
| `Base64Url.LineEndsIgnored` | auth/oidc/store.go:83 | the decoder ignores carriage returns and line feeds wherever they are |
| `Base64Url.EncoderImage` | auth/oidc/store.go:79-85 | a string is an encoding exactly when it has only letters, a usable length and no bits set behind the last octet |
| `Base64Url.BindingInverse` | auth/oidc/store.go:79-85 | decodeBinding accepts a string with a given secret exactly when the secret has 32 octets and encodes to that string |
| `Base64Url.BindingExact` | auth/oidc/store.go:79-85 | decodeBinding accepts exactly the 43-letter strings whose last letter carries no stray bits |
| `Base64Url.BindingInjective` | auth/oidc/store.go:79-85 | equal decoded octets mean equal strings |
| `Base64Url.StrayBitsDecodeAlike` | auth/oidc/store.go:83-84 | without the re-encoding check, strings that differ in stray low bits decode alike |
| `Login.Complete` | auth/oidc/login.go:169-178 | contacts the token endpoint exactly when owner, context and unused flag are in order, the creation time is at most 300 s old and at most 60 s ahead, and the callback has the transaction's own state once, one code of 1 to 4096 octets and no error; with the right owner and a context the transaction is used afterwards in every case, otherwise its flag is untouched |
| `Login.Begin` | auth/oidc/login.go:112-144 | starts a login exactly when the configuration is not stale and the random source delivered three times; the transaction is new and unused, and its state, nonce and verifier pass the checks of Put and Seal because they decode to exactly the secrets drawn |
| `PendingLogins.PutAccepts` | auth/oidc/store.go:96-107 | exactly when Put accepts a timely transaction: below capacity the state is free; at capacity some entry is dead, and an entry with this state only if it is dead |
| `PendingLogins.PutKeeps` | auth/oidc/store.go:31-32 | the map never exceeds its capacity, no living login is evicted or replaced, nothing but the new entry is added; below capacity nothing leaves, at capacity every dead entry does |
| `PendingLogins.TakeExact` | auth/oidc/store.go:110-136 | Take hands out exactly the living transaction stored under this state with this secret, leaves other states alone, removes a dead entry whatever the secret, and a wrong secret on a living entry changes nothing |
| `PendingLogins.TakeUndoesPut` | auth/oidc/store.go:89-136 | Take after Put returns the transaction once and restores the map Put had made room in |
| `LockedStore.TransactionStore.PruneExpired` | auth/oidc/store.go:138-145 | removes exactly the used or expired entries |
| `LockedStore.TransactionStore.PutLocked` | auth/oidc/store.go:94-107 | the critical section refines Put of the bounded map, entries holding hashes instead of secrets |
| `LockedStore.TransactionStore.TakeLocked` | auth/oidc/store.go:117-135 | the critical section refines Take of the bounded map: comparing hashes is comparing secrets |
| `Store.PutTransaction` | auth/oidc/store.go:89-108 | inadmissible calls change nothing; all others refine the bounded map's Put with the secret the binding spells; what is accepted is owned, unused, within its window and stored under its state with the secret that encodes to the binding |
| `Store.TakeTransaction` | auth/oidc/store.go:112-136 | malformed calls change nothing; all others refine the bounded map's Take with the secret the binding spells; a transaction comes back exactly when it is stored under this state with the secret that encodes to this binding, is unused and at most 300 s old |
| `Store.OnlyItsBinding` | auth/oidc/store.go:110-111 | a stored living transaction comes back for the very binding string it was put under and for no other |
| `LoginProtocol.ActionKeeps` | auth/oidc/store.go:89-145 | every action of every caller, including each single load of a flag, keeps the protocol invariant |
| `LoginProtocol.OneUse` | auth/oidc/login.go:169-178 | in every interleaving at most one complete call per transaction gets past the guard, every transaction a call reached is used, and what was exchanged was within its validity window |
| `LoginProtocol.NoNewWinner` | auth/oidc/login.go:170 | once a flag is set no later action of any run makes a further call a winner |
| `LoginProtocol.Consumed` | auth/oidc/login.go:154-157 | a complete call by the owner with a context consumes the transaction for the rest of every run, even if it then fails |
| `LoginProtocol.RunExtends` | auth/oidc/login.go:64-71 | in every run flags never go back, fields never change, finished Puts stay finished |
| `LoginProtocol.OnlyTakenOrDeadLeave` | auth/oidc/store.go:138-145 | an entry leaves the store only through the Take that named its secret, or because it is used or expired |
| `LoginProtocol.StoreBounded` | auth/oidc/store.go:96-106 | in every run the store is within capacity and each entry is keyed by its transaction's state and owed to one finished Put |
| `LoginProtocol.TakenOnceForItsSecret` | auth/oidc/store.go:112-136 | in every run what Take returns stems from one finished Put with the same secret, never twice, and passes the full freshness test at the instant of the Take |
| `LoginProtocol.OneFreshnessTest` | auth/oidc/transaction_codec.go:105-107 | the tests of Put, complete and the codec agree on every non-zero creation time, and on every creation time once the clock is past year 1; they are the window from 300 s before to 60 s after the clock; what Put accepts at complete's first clock reading passes both of complete's tests at any second reading not before it |
| `LoginProtocol.OneUsePerState` | auth/oidc/login.go:61-63 | in every run in which no two transactions share a state string, a state string is exchanged at most once |
| `StateReuse.OneUsePerStateExactly` | auth/oidc/login.go:61-63 | from any state of the protocol, no continuation without new transactions exchanges a state string twice if and only if at most one transaction with that string is live: owned, unused and unexpired, or held by a call past the swap |
| `StateReuse.SharedStateExchangedTwice` | auth/oidc/login.go:169-178 | every run with two live transactions of one state string extends to a run in which both are exchanged |
| `StateReuse.LiveAllAlong` | auth/oidc/login.go:169-178 | a transaction that is live after some actions was live before them, so nothing revives one |
| `StateReuse.ReopenedStateExchangedTwice` | auth/oidc/transaction_codec.go:72-74 | such runs exist for every state string |
| `Reopening.OpenedTwice` | auth/oidc/transaction_codec.go:72-96 | one record, opened and presented, then opened and presented again: two distinct transactions with the sealed fields, both exchanged, for every sealable transaction and all instants inside the window |
| `StoreSteps.PutUninterrupted` | auth/oidc/store.go:94-107 | the protocol's Put without interruption, in whatever order it prunes, is the bounded map's Put |
| `StoreSteps.TakeUninterrupted` | auth/oidc/store.go:117-135 | the protocol's Take without interruption is the bounded map's Take |
| `StoreSteps.CompleteUninterrupted` | auth/oidc/login.go:169-178 | the protocol's complete without interruption exchanges, and sets the flag, under exactly the conditions of Login.Complete |
| `StoreSteps.EntryTests` | auth/oidc/transaction_codec.go:46-54 | what the protocol's Put tests before the mutex and what its Seal tests: owner, length of the state, flag, form and window |
| `StoreSteps.RefusedForLivingOnly` | auth/oidc/store.go:97-106 | in every run a Put refused for want of room had looked at each remaining entry at a step at which that entry was stored, unexpired and unused |
| `CodecFormat.PlaintextRoundTrip` | auth/oidc/transaction_codec.go:55-61 | the plaintext is state, nonce, verifier and the big-endian two's complement creation time; parsing gives them back, the time as far as 64 bits carry it |
| `CodecFormat.WrappedExact` | auth/oidc/transaction_codec.go:60 | the creation time survives exactly when it fits into int64 nanoseconds |
| `CodecFormat.PrefixedInjective` | auth/oidc/transaction_codec.go:113-118 | the length-prefixed concatenation is injective for parts shorter than 2^32 octets, for any number of parts |
| `CodecFormat.UnambiguousExactly` | auth/oidc/transaction_codec.go:113-118 | as a byte layout the concatenation tells all lists of parts apart if and only if every length fits into its 32-bit prefix; the colliding lists are no clients |
| `CodecFormat.AdmissibleInjective` | auth/oidc/verify.go:47-53 | issuers without zero octets and client IDs of at most 256 octets, which is what clients have, are told apart together with their redirect URIs at every length |
| `Codec.TransactionAad` | auth/oidc/transaction_codec.go:109-120 | the loop hashes issuer, client ID and redirect URI in this order, each behind its length as four big-endian octets |
| `Codec.AadSeparates` | auth/oidc/transaction_codec.go:109-120 | for any two clients, with no bound on issuer and redirect URI, associated data are equal exactly for equal issuer, client ID and redirect URI |
| `Codec.SameIdentity` | auth/oidc/transaction_codec.go:111 | two clients have one identity exactly when issuer, client ID and redirect URI agree |
| `Codec.ValidFieldsExactly` | auth/oidc/transaction_codec.go:98-103 | fields are well-formed exactly when they are the encodings of three secrets of 32 octets, which is what Begin draws |
| `Codec.TransactionCodec.Seal` | auth/oidc/transaction_codec.go:46-70 | seals exactly the unused, well-formed, timely transactions of a client; the record is version 1, nonce and box in 166 octets, is new and is remembered with its client and fields |
| `Codec.TransactionCodec.Open` | auth/oidc/transaction_codec.go:75-96 | returns a new unused transaction of this client with the restored fields, or nothing |
| `Codec.OpensExactlyWhatWasSealed` | auth/oidc/transaction_codec.go:72-96 | Open restores exactly the records Seal returned, for clients with the same three identifiers, inside the validity window; tampered, foreign, cross-client and old records restore nothing |
| `Reopening.SealThenOpen` | auth/oidc/transaction_codec.go:72-96 | a record sealed for its owner opens for another client exactly when issuer, client ID and redirect URI agree, at exactly the instants inside the window, and then with all sealed fields |
| `ConfigurationCache.Cache.Current` | auth/oidc/cache.go:74-87 | succeeds exactly from 60 s before the fetch to maxAge after it; the deadline returned is the end of that window, lies ahead, and lets a client built from it begin a login |
| `ConfigurationCache.Cache.GetStatus` | auth/oidc/cache.go:91-107 | fresh at exactly the instants at which Current succeeds; fresh or stale it names the fetch and the end of the window, and zero times for an empty cache |
| `RefreshDriver.Run` | auth/oidc/cache.go:123-136 | one report per refresh until cancellation; a failed refresh leaves the last successful one in force, and each report says whether that one was still usable |
| `RefreshDriver.LatestIs` | auth/oidc/cache.go:55-70 | failures after a refresh change nothing, however many; a success replaces whatever was there |
| `RefreshDriver.CompletedIs` | auth/oidc/cache.go:123-136 | the loop refreshes until the first cancellation it looks at, before or after an iteration |
| `CacheProtocol.ActionKeeps` | auth/oidc/cache.go:55-87 | every single lock, field access and unlock of every caller keeps the protocol invariant |
| `CacheProtocol.NeverTorn` | auth/oidc/cache.go:74-87 | in every interleaving Current pairs a configuration only with the deadline of the refresh that fetched it |
| `CacheProtocol.PublishedInOrder` | auth/oidc/cache.go:59-68 | in every interleaving each discovery begins after the previous result was stored, so a slow one never replaces a newer one |
| `CacheProtocol.CopyFindsConfiguration` | auth/oidc/cache.go:81-84 | a reader that found the cache fresh never dereferences a missing configuration |
| `CacheProtocol.BeginBeforeDeadline` | auth/oidc/login.go:112-118 | every Begin that succeeds on a client built from Current happens strictly before that refresh's fetch time plus maxAge |
| `CacheProtocol.DeadlineRespected` | auth/oidc/login.go:116 | Begin is allowed at every instant before its deadline, and at no other exactly when the deadline is not the zero time |
| `CacheSteps.CurrentUninterrupted` | auth/oidc/cache.go:74-87 | the protocol's Current without interruption is the cache's Current: inside the window the configuration and the end of the window, otherwise nothing |
| `CacheSteps.RefreshUninterrupted` | auth/oidc/cache.go:55-70 | the protocol's Refresh without interruption stores what was found with the time of storing, and a failure changes nothing |
| `RefreshLoop.MarginSuffices` | auth/oidc/cache.go:109-136 | with no two failures in a row and two gaps plus one refresh within maxAge, the cache is fresh from the first success to the last replacement |
| `RefreshLoop.RetryMargin` | auth/oidc/cache.go:113-121 | that condition is necessary as well: it holds if and only if every such schedule keeps the cache fresh |
| `Sorting.AscendingUnique` | data/migrate/migrate.go:58 | two ascending arrangements of the same elements are equal, so a sort has one right answer |
| `Sorting.Sort` | data/migrate/migrate.go:58 | the result is strictly ascending and a permutation of the input |
| `Sorting.StringLessExactly` | web/health/health.go:101 | the order of strings: the first difference decides, and a proper prefix comes first |
| `MigrationFiles.VersionDigitsExact` | data/migrate/migrate.go:19 | the scan of a file name finds the version digits exactly when the pattern matches, and they are unique |
| `MigrationFiles.PatternExactly` | data/migrate/migrate.go:19 | the digits and the stem of the pattern, by their character sets |
| `Numerals.NumberExactly` | data/migrate/migrate.go:43 | reading a string of digits gives n exactly when the string is the decimal numeral of n behind any number of zeros |
| `MigrationFiles.VersionExactly` | data/migrate/migrate.go:39-46 | the version the loader uses is the number the digits of the name spell |
| `MigrationFiles.LoadableExactly` | data/migrate/migrate.go:35-53 | a listing loads exactly when every version is between 1 and 2^63-1, no two files have the same and all of them can be read |
| `MigrationFiles.Collect` | data/migrate/migrate.go:35-57 | collects every relevant file in order, each as the migration its name and contents say, or reports the first entry that has a bad version, a taken version or no readable contents, and which of these |
| `MigrationFiles.Load` | data/migrate/migrate.go:28-60 | succeeds exactly on loadable listings; versions strictly ascend; every migration has the name, the text, the checksum of the text and the version of one file, and every file with a version has given one |
| `MigrationFiles.ListingOrderIrrelevant` | data/migrate/migrate.go:28-60 | permuted listings load as the same list |
| `MigrationRunner.ApplyAllExact` | data/migrate/migrate.go:97-110 | a run succeeds exactly when recorded checksums agree, pending versions are new and distinct, and their SQL runs through; its effect is that SQL in order and one row each |
| `MigrationRunner.OneMoreMigration` | data/migrate/migrate.go:97-110 | one more migration at the end of a list runs its SQL on the schema the others left and adds its row, or fails with its SQL; one recorded before does nothing, or fails if its checksum changed |
| `MigrationRunner.SuccessRecords` | data/migrate/migrate.go:97-114 | after success every migration of the list is recorded with its checksum |
| `MigrationRunner.RerunChangesNothing` | data/migrate/migrate.go:97-103 | rerunning a list that succeeded changes nothing, even where its SQL would no longer run |
| `MigrationRunner.Apply` | data/migrate/migrate.go:63-115 | success commits exactly the run's result; any failure before the commit, however late in the list, leaves schema and bookkeeping unchanged; a lost commit leaves one of the two |
| `MigrationProtocol.ActionKeeps` | data/migrate/migrate.go:63-115 | every step of every runner keeps the protocol invariant |
| `MigrationProtocol.AtMostOnce` | data/migrate/migrate.go:62-115 | in every interleaving, even if every commit was reported lost: the committed schema is the initial one with the committed migrations' SQL run in order, and a version's SQL is part of it once if the committed table gained its row and otherwise not at all |
| `MigrationProtocol.ExactlyOnce` | data/migrate/migrate.go:62-115 | when a runner has succeeded, each version of its list that was not there before was run exactly once, by a migration with its checksum, and none that was there was run |
| `MigrationProtocol.CommitsWhatApplyWould` | data/migrate/migrate.go:62-115 | in every interleaving what a runner commits is what Apply alone would have made of the database at that very moment, and a step fails only where Apply would |
| `MigrationProtocol.OnlyCommitsChange` | data/migrate/migrate.go:69-115 | only a commit that reached the server changes the committed database; an abort or a commit that did not fails the runner and frees the lock |
| `MigrationProtocol.WaitingRunnerFinishes` | data/migrate/migrate.go:62-115 | in every run a waiting runner whose list Apply would accept can finish once the lock is free, and commits exactly what Apply would |
| `MigrationProtocol.SameListSameSql` | data/migrate/migrate.go:62-115 | when all runners share one list, what was run for a version is that list's migration |
| `MetricLabels.ThreePassesAreOne` | web/metrics/metrics.go:272-277 | the three replacement passes equal one escaping pass |
| `MetricLabels.Escapes` | web/metrics/metrics.go:272-277 | backslash, newline and quote have their escapes, and a value without them is unchanged |
| `MetricLabels.ReadBack` | web/metrics/metrics.go:272-277 | an escaped value ends at its own closing quote, whatever follows, and reads back as itself |
| `MetricLabels.TextReadsBack` | web/metrics/metrics.go:263-270 | method, route, status and bucket can be read back from the printed text |
| `MetricLabels.PlainText` | web/metrics/metrics.go:263-270 | the text of labels that need no escaping, name by name |
| `MetricLabels.DistinctSeries` | web/metrics/metrics.go:263-270 | distinct labels and buckets print as distinct series, and a series with a bucket never equals one without |
| `MetricLabels.TextOneLine` | web/metrics/metrics.go:263-277 | printed labels contain no newline |
| `Histograms.Add` | web/metrics/metrics.go:134-141 | the loop over the bounds adds one to the count, the value to the sum and one to exactly the buckets whose bound is not below the value |
| `Histograms.Observe` | web/metrics/metrics.go:131-143 | the map stays the index of the log: exactly the labels seen, each with its count, sum and cumulative buckets |
| `Histograms.BucketsCumulative` | web/metrics/metrics.go:137-141 | for every log, buckets never decrease with the bound and never exceed the count |
| `Histograms.CountsEvents` | web/metrics/metrics.go:131-143 | count and buckets are the numbers of positions of the log with the key, and with a duration of at most the bound |
| `Histograms.SumsDurations` | web/metrics/metrics.go:136 | the sum of a log is the sum of its parts, and of one event its duration |
| `Exposition.SeriesInjective` | web/metrics/metrics.go:187-199 | the printed series determines label, metric and bucket, across all metric names |
| `Exposition.Print` | web/metrics/metrics.go:184-200 | the printing loops produce exactly the report, line by line |
| `Exposition.EverySeriesOnce` | web/metrics/metrics.go:184-200 | no two lines of a report name the same series |
| `Exposition.ReportSays` | web/metrics/metrics.go:184-200 | for every label a counter with its events, under each bound the events no longer than it, under +Inf and as count all of them, and the sum of their durations; fifteen lines per label |
| `Exposition.BoundTextsDenoteBounds` | web/metrics/metrics.go:17 | each printed bound is the decimal numeral of its bound, and the bounds ascend |
| `Registry.Metrics.ObserveRequest` | web/metrics/metrics.go:131-143 | appends exactly this event to the log the registry indexes |
| `Registry.Metrics.ObserveLdapLookup` | web/metrics/metrics.go:68-87 | appends the event with bounded labels and a non-negative duration |
| `Registry.KeyOrder` | web/metrics/metrics.go:173-181 | the comparison of the scrape is a strict total order on labels: method, then route, then status |
| `Registry.SortedLabels` | web/metrics/metrics.go:169-181 | every label of the snapshot, once, in strictly ascending order |
| `Registry.Metrics.ScrapeRequests` | web/metrics/metrics.go:186-188 | uninterrupted, the request part of a scrape is the report of the whole log: counters, then per label eleven buckets, +Inf, sum and count, in label order, and no two lines name the same series |
| `ScrapeProtocol.ActionKeeps` | web/metrics/metrics.go:131-200 | every locked read and write of an observation, every copied entry and every printed line keeps the protocol invariant |
| `ScrapeProtocol.ScrapesOneMoment` | web/metrics/metrics.go:147-200 | in every run, at every moment of the printing, the printed lines are the first lines of the report of the log as it was when the scrape took the mutex, however many observations came since, and no series appears twice |
| `Readiness.Ready` | web/health/health.go:82-106 | for every arrival order and deadline the loop ends; the failed list is sorted, without duplicates, and names exactly the checks that did not return nil in time; up means there are none |
| `CheckGoroutines.SendNeverBlocks` | web/health/health.go:69-81 | in every run a check still running can send its result, with or without a receiver |
| `CheckGoroutines.ReceivedOnce` | web/health/health.go:69-93 | in every run the handler receives at most one result per check |
| `CheckGoroutines.ReadyAfter` | web/health/health.go:58-106 | for every run of the check goroutines the service is reported up exactly when every check's nil was sent and received before the handler left, and otherwise exactly the other checks are listed |
| `ConcurrencyLimit.Conservation` | web/middleware/concurrency.go:20-45 | in every run tokens held are the requests inside handlers, at most the maximum |
| `ConcurrencyLimit.NeverStuck` | web/middleware/concurrency.go:22-44 | no release blocks; a waiting request can go in or somebody inside can leave; without a queue timeout it is answered at once in exactly one way and never cancelled, with one it can always time out or be cancelled |
| `ConcurrencyLimit.FateIsFinal` | web/middleware/concurrency.go:22-44 | served, refused or cancelled, a request stays so for the rest of every run |
| `ConcurrencyLimit.PlaceOfRequest` | web/middleware/concurrency.go:22-44 | in every run a request is where its own steps put it: known once it arrived, waiting until let in, refused or cancelled, inside until its release, and then served |

## Left out

- Resynchronisation after a framing error: the source does none; stream properties are stated up to the first error, and after it only that whole validated messages within the limits are handed out.
- `GetUser`, TLS, HTTP, PostgreSQL calls and the LDAP library: plumbing around foreign code; their results are parameters here.
- Cryptography: SHA-256 and AES-GCM are idealised as described above; ID token verification and certificate checking are not modelled.
- URL building, token response decoding, cookies: thin wrappers over standard parsers. Of the validation in `NewVerifier` and `NewLoginClient` only its consequence `Admissible` is used: that net/url refuses control octets is taken as given, not proved.
- Argument checks of constructors (store capacity, cache age, key length, concurrency maximum): the errors they return are not modelled; the cache's results hold for every maximum age.
- Nil receivers of the store, codec and cache: a Dafny receiver is never null.
- Store.TakeTransaction: the second load of the flag in Take cannot differ from the first within one atomic section; LoginProtocol models both loads.
- Sorting.Sort: stands for sort.Slice and sort.Strings; the library's algorithm and its in-place update are not modelled, only lists without equal keys are sorted here.
- The directory and PostgreSQL sections of a scrape: the directory section repeats the request section over two other labels, whose values are fixed words, and the pool's numbers come from foreign code.
- `Register` and `Live` of the health handler, `RegisterPostgresPool` and the HTTP middleware around the registry: each stores or forwards one value.
- The text of numbers in a scrape: `%d` and FormatFloat are not modelled, lines carry the number itself; the eleven bound texts are written out.
- Floating-point rounding of metric sums, wrap-around of counters, Go's monotonic clock readings.
- Configuration, logging, CORS, validation, permissions, audit events and the other packages: straight-line code with easy properties.
