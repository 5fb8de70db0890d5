# A model of the DNS resolver, with proofs

The repository is a recursive DNS resolver with no DNS library underneath: it encodes and decodes
packets, walks referrals from the root, caches answers and limits its clients with code of its own.
This project models that code in Dafny and proves what it is relied on for.

- **Wire codec** (`internal/protocol`). `Octets`, `Names`, `NameWire`, `Records`, `RecordWire` and
  `MessageWire` define what is written and read as functions of positions in a packet. `Encoder` and
  `Decoder` are the code as it is built (a growing buffer with a shared compression table and a
  back-patched RDLENGTH; cursor loops over octets), proved equal to those functions. Main results:
  what the decoder finds at every compression-table offset, the message round trip for everything that
  encodes and exactly whose RDATA it keeps, totality and bounds of decoding. `Format` is the wire format
  itself, octet by octet and apart from both: a packet decodes to a message exactly when it has the format
  of that message, and what is encoded has it. `Reencoding` repeats the round trip: a copy encodes again,
  to the same size. `Reply` adds what a client reads: compression never lengthens, and a truncated UDP
  reply fits.
- **Recursive resolution** (`internal/resolver`). `Recursion` is the loop of `resolveRecursive` against
  an arbitrary upstream, `RecursionTurns` exactly when a run goes on after a reply and with what,
  `RecursionRuns` what holds of all runs, and `RecursionExact` where they fall short, exactly;
  `Referrals` is server selection, `ReferralRules` what it selects, said of the records; `Domains`, `Keys` and `Answers` the names, keys and readings of replies it uses. `FanOut` is the
  concurrent `queryFastest` as a system of steps, with safety in every interleaving and an end to every
  run. `Upstream` is the query sent and the check of the reply, over the codec.
- **Cache** (`internal/cache`). `CacheSpec` is the cache as a state machine, `CacheRuns` and `CacheLaws`
  its laws over all runs, `Snapshots` Persist and Load. `Cache` is the cache as it is built, list elements, map and
  all, proved to take exactly the steps of `CacheSpec`. `Resolving` puts the cache in front of the walk.
- **Limiters and lists**. `RateLimiterSpec`, `ResponseLimiterSpec` and `Breaker` hold the laws of the
  token bucket, of the response limiter and of the circuit breaker; `RateLimiter`, `ResponseLimiter` and
  the class in `Breaker` are the objects. `BlocklistSpec` and `Blocklist` do the same for the blocklist,
  with its in-place removal of duplicates; `Sorting` is Go's string order and sort.

Conventions: a Go string or byte slice is a sequence of octets; times and durations are integers in
nanoseconds on one clock, given with each call; token counts are reals; randomness, upstream replies and
address lookups are arbitrary inputs. An error is `Err`, `None` or a constructor without its text.

Some properties one might expect are false of the code. The model follows the code, and for each of them
there is a theorem with the exact condition and a lemma with a failing input:

| expected | exactly when | failing input |
|---|---|---|
| RDATA survives the wire | `MessageWire.RoundTripExactly` | `Reencoding.MisfiledLost` |
| a decoded name is taken back | `Names.CanonicalExactly` | a label with a dot inside, or a space in front |
| a token bucket limits | `RateLimiterSpec.BoundExactly`, `RateLimiterSpec.CollectionExactly` | `RateLimiterSpec.SlowRefill` |
| an alias is followed | `RecursionExact.AliasInEveryRun` | `RecursionExact.SameTopLevelFails` |
| NODATA is for the name asked for | `RecursionExact.NodataExactly` | `RecursionExact.NodataOfMinimisedName`, `RecursionExact.NodataBehindAlias` |
| in bailiwick means below the zone | `Domains.BailiwickExactly` | `Domains.BailiwickTooWide` |
| a wildcard blocks what is below it | `BlocklistSpec.CoversExactly` | `BlocklistSpec.CoversTooWide` |
| a blocklist survives being written out | `BlocklistSpec.WildcardRoundTripExactly` | `BlocklistSpec.LostDomain` |
| a restart keeps the answer served on error | `Snapshots.RestartStaleOnError` | `Snapshots.StaleAnswerLost` |
| a restart keeps negative answers | `Snapshots.RestartNegative` | `Snapshots.NegativeAnswerLost` |

## Model

| member | source | states |
|---|---|---|
| NameWire.PutLabelsReads | internal/protocol/encoder.go:79-105 | compression-table invariant: once the octets of a name stand in the finished packet, the name reads back there up to case, every entry added points to a label start where exactly that name is found, through pointers that go strictly backward |
| NameWire.PutNameReads | internal/protocol/encoder.go:79-137 | a written name reads back as its trimmed, fully qualified form up to ASCII case (exactly, when all names are lower case), ends where its octets end, and leaves the table right |
| NameWire.TableDecodes | internal/protocol/encoder.go:89-101 | at every entry of a table that satisfies the invariant decodeName succeeds, with a name whose lower case is the key |
| NameWire.ReadNameFinds | internal/protocol/decoder.go:123-197 | decodeName finds every name reachable through backward pointers within its label, length and 127-jump limits: neither the visited set nor the jump count stops it |
| NameWire.ReadNameNext | internal/protocol/decoder.go:123-197 | on success decodeName moves forward inside the packet, and where it stops does not depend on the octets at pointer targets |
| NameWire.NameAtUnique | internal/protocol/decoder.go:123-197 | at most one name stands at an offset |
| NameWire.NameAtAppend | internal/protocol/encoder.go:147-166 | names already in the packet survive every append |
| NameWire.TableOkAppend | internal/protocol/encoder.go:99-101 | the table invariant survives every append |
| Names.SplitOfDotted | internal/protocol/encoder.go:107-137 | splitting a joined name gives its labels back |
| Names.DottedOfSplit | internal/protocol/encoder.go:115-119 | joining a split name gives its text back |
| Names.CanonicalExactly | internal/protocol/decoder.go:199-218 | of the names that can stand on the wire, splitQName takes back as the same labels exactly those whose text has no dot inside a label and no space in front |
| Names.SplitExactly | internal/protocol/encoder.go:107-137 | splitQName accepts a text, spaces around it or not, with exactly these labels if and only if they are legal (1 to 63 octets each, 255 in all) and joined give the text with its final dot; nothing and a lone dot are the root |
| RecordWire.RDataBack | internal/protocol/rdata.go:8-325 | for every RDATA kind, parsing what was laid out gives the data back, names up to case (where each field stands: Format.RDataExactly) |
| RecordWire.PutNamesReads | internal/protocol/rdata.go:218-325 | names inside RDATA share the table and keep its invariant |
| MessageWire.HeaderBack | internal/protocol/header.go:24-73 | decoding an encoded header gives it back, sub-fields cut to their width |
| MessageWire.HeaderForth | internal/protocol/header.go:24-73 | encoding a decoded header gives the twelve octets back |
| MessageWire.RecordBack | internal/protocol/encoder.go:58-77 | any record that was written reads back there with its name, type, class, TTL and RDLENGTH, its RDATA when of the kind announced, its raw octets when it had no RDATA; the table invariant holds after it |
| MessageWire.SectionsBack | internal/protocol/encoder.go:10-47 | the four sections are read back in turn, to the very end of the packet, under one table, every entry of which decodes to its key in the finished packet |
| MessageWire.DecodeFits | internal/protocol/decoder.go:9-61 | whatever octets decode, section lengths equal the header counts and 12 + 5 qd + 11 (an + ns + ar) octets are there |
| MessageWire.RoundTrip | internal/protocol/encoder.go:10-137 | Decode of Encode succeeds for every message that encodes, and gives it back with counts normalised: all names up to case, and the RDATA of every kind wherever it is of the kind its type announces (at which octets: Format.EncodeFormat) |
| MessageWire.RoundTripExactly | internal/protocol/decoder.go:79-121 | all RDATA of an encodable message comes back if and only if each record's is of the kind its type announces |
| MessageWire.RoundTripEqual | internal/protocol/encoder.go:10-137 | for canonical lower-case messages the round trip is equality, RawRData apart |
| MessageWire.SameMessageTwice | internal/cache/cache.go:537-550 | what comes back of what came back is still the message |
| Format.BigEndian | internal/protocol/encoder.go:151-166 | numbers are written and read with the most significant octet first |
| Format.NameExactly | internal/protocol/decoder.go:123-218 | decodeName reads a name exactly where labels, pointers and a zero octet spell it within 127 labels, 127 pointers and 255 octets, and stops behind its first pointer or its zero |
| Format.RDataExactly | internal/protocol/rdata.go:8-216 | for every type but OPT, parseRData accepts the octets exactly when they have the format of the type, each field at its own octets: serial, refresh, retry, expire and minimum of a SOA in this order behind the two names, and so on for every kind |
| Format.RecordExactly | internal/protocol/decoder.go:79-121 | decodeResourceRecord accepts exactly the octets in which name, type, class, TTL, length and RDATA stand one behind the other; OPT keeps its size, extended code, version and flags in class and TTL; data that has no format leaves only the raw octets |
| Format.HeaderExactly | internal/protocol/header.go:24-43 | every flag, code and count of the header is at its own bits and octets |
| Format.DecodeExactly | internal/protocol/decoder.go:9-61 | Decode accepts a packet with a message if and only if the packet has the format of that message, sections in the order of the four counts |
| Format.EncodeFormat | internal/protocol/encoder.go:10-77 | whatever Encode produces has the format of the message encoded, up to the case of names: each field in the octets where the format has it |
| Reencoding.EncodeAgain | internal/cache/cache.go:537-560 | a copy made by encoding and decoding encodes again, to as many octets, and comes back the same |
| Reencoding.PutNameAlike | internal/protocol/encoder.go:79-105 | a name that came back takes as many octets as the original and leaves the same table |
| Reencoding.MisfiledLost | internal/protocol/rdata.go:218-325 | an address in a record announced as NS encodes and decodes, and is gone |
| Encoder.PacketWriter.WriteName | internal/protocol/encoder.go:79-105 | the loop appends exactly the specified octets, updates the shared table alike, and keeps the table invariant, so that every entry decodes to its key in the buffer so far |
| Encoder.PacketWriter.SetUint16 | internal/protocol/encoder.go:168-170 | the patch in place changes two octets and nothing else |
| Encoder.PacketWriter.EncodeRData | internal/protocol/rdata.go:218-325 | each kind's layout is written as specified, which Format.EncodeFormat pins octet by octet |
| Encoder.PacketWriter.EncodeQuestion | internal/protocol/encoder.go:49-56 | a question is written as specified |
| Encoder.PacketWriter.EncodeResourceRecord | internal/protocol/encoder.go:58-77 | writing a zero RDLENGTH and patching it later gives the record as specified; after it every table entry decodes to its key |
| Encoder.RecordAssembled | internal/protocol/encoder.go:65-75 | the patched octets are the record written with its real length |
| Encoder.NameWritten | internal/protocol/encoder.go:79-105 | after a completed name the invariant holds and decodeName succeeds at every table entry with a name whose lower case is its key |
| Encoder.RecordWritten | internal/protocol/encoder.go:58-77 | the same after a completed record, patch included |
| Encoder.EncodeMessage | internal/protocol/encoder.go:10-47 | the encoder as built computes Encode |
| Decoder.DecodeName | internal/protocol/decoder.go:123-197 | the pointer-chasing loop terminates on any octets, reads inside the packet, and computes ReadName |
| Decoder.JoinLabelText | internal/protocol/decoder.go:199-218 | the length limit and the text of a label list |
| Decoder.DecodeTexts | internal/protocol/rdata.go:81-93 | the TXT cursor loop computes ReadTexts |
| Decoder.DecodeQuestion | internal/protocol/decoder.go:63-77 | computes ReadQuestion |
| Decoder.DecodeResourceRecord | internal/protocol/decoder.go:79-121 | computes ReadRecord, which Format.RecordExactly pins octet by octet |
| Decoder.DecodeMessage | internal/protocol/decoder.go:9-61 | the decoder as built computes Decode on every octet sequence |
| Reply.EncodeShort | internal/protocol/encoder.go:79-137 | compression never lengthens: the packet is at most the size with every name in full |
| Reply.TruncatedFits | internal/server/handler.go:203-213 | what encodes can be truncated, to at most 12 + 259 octets a question |
| Reply.TruncatedReads | internal/server/handler.go:203-213 | a truncated reply decodes with TC, the ID, the question and no records |
| Reply.UdpReplyFits | internal/server/handler.go:198-213 | a single-question UDP reply to a client without EDNS is at most 512 octets, 271 when truncated, and fails exactly when the full response does |
| Reply.ClientReads | internal/server/handler.go:176-213 | every reply decodes to a response carrying the request's ID and RD, the code, flags and questions resolved (SERVFAIL and the request's question when resolution failed), TC exactly when cut or resolved so, and all records resolved unless it was cut; it is cut exactly when it goes over UDP to a client without EDNS and is longer than 512 octets |
| CacheSpec.ShrinkDropsTail | internal/cache/cache.go:286-291 | shrinking drops exactly the tail, counts each eviction, and keeps the byte count exact |
| CacheSpec.CloneFaithful | internal/cache/cache.go:537-560 | copies, and copies of copies, are the message up to name case, and the message itself when it does not encode; the copy of a fitting message is as large as it |
| CacheSpec.ClampExactly | internal/cache/cache.go:517-525 | the clamped lifetime is minTTL below it, maxTTL above it, and the TTL itself between them; clampTTL computes it and nothing else |
| CacheSpec.NewConfigIs | internal/cache/cache.go:74-92 | the defaults: 10000 entries, 30 s, 24 h, 5 min, 1 h; only a minimum above a day leaves the upper limit below the lower |
| CacheSpec.RetimeIs | internal/cache/cache.go:292-318 | an update changes exactly the lifetimes given and in range, raising the upper limits where they would be below the lower; doing it twice is doing it once |
| CacheRuns.StepKeeps | internal/cache/cache.go:121-318 | every operation keeps the invariant (keys once, length within the limit, MemoryBytes the sum of resident sizes), and changes the list only by moving the touched entry to the front and dropping others; what Set stores is at the front |
| CacheRuns.SetKeeps | internal/cache/cache.go:121-160 | a Set keeps the invariant and its own entry, fresh, is first: it is never the victim |
| CacheRuns.InsertKeeps | internal/cache/cache.go:152-159 | a new key in a full cache evicts exactly the last entry |
| CacheRuns.GetKeeps | internal/cache/cache.go:162-203 | a Get keeps the invariant, and moves the entry to the front or removes it |
| CacheRuns.ConfigureKeeps | internal/cache/cache.go:282-318 | a resize keeps the invariant and a prefix of the list |
| CacheRuns.RunInv | internal/cache/cache.go:121-318 | the invariant holds after every run of operations |
| CacheRuns.RecencyOrder | internal/cache/cache.go:121-203 | after every run the list is in the order of the latest Set or Get, the most recent first |
| CacheRuns.Provenance | internal/cache/cache.go:121-203 | after every run each resident entry is the one its key's last Set made, under the settings of that moment |
| CacheRuns.HitMeans | internal/cache/cache.go:162-203 | after every run a resident key is hit exactly while the lifetime of its last Set (minTTL, maxTTL or the TTL given, as the limits of that moment have it), or the stale window after it, is not over, stale exactly in that window, and with a faithful copy of the message last Set |
| CacheRuns.StaleMeans | internal/cache/stale.go:5-21 | after every run a key is served on error exactly when it is resident and was last Set at most staleMaxAge ago, with a faithful copy of the message last Set |
| CacheRuns.LeavesExactly | internal/cache/cache.go:121-318 | exactly which entries each operation takes away: the last one for a new key in a full cache, the tail on a resize, and otherwise only the key's own; only Set brings one in |
| CacheRuns.RecentStays | internal/cache/cache.go:121-203 | an entry just stored or read stays, unchanged, while it is fresh, nothing replaces or removes it, and fewer than maxEntries other keys are stored or read |
| CacheRuns.ClampBetween | internal/cache/cache.go:517-525 | with minTTL <= maxTTL the lifetime lies between them and is nearer to the TTL asked for than every other value that does |
| CacheRuns.GetKeepsServable | internal/cache/cache.go:194-199 | a Get never takes away what GetStaleOnError would serve at that instant |
| CacheRuns.CountsAddUp | internal/cache/cache.go:162-203 | over every run Hits + Misses is the number of Get and GetNegative calls, and StaleHits <= Hits |
| CacheLaws.MemoryMeans | internal/cache/cache.go:121-160 | after every run MemoryBytes is the number of octets of all resident keys and encoded messages |
| CacheLaws.HitsCounted | internal/cache/cache.go:162-176 | after every run the hit count of an entry is the number of Gets of its key since its last Set |
| CacheLaws.GetCounts | internal/cache/cache.go:162-203 | a Get counts one hit or miss as it answers, a stale hit when stale, an expiration the first time an entry is found expired, and a prefetch when it starts one |
| CacheLaws.EvictionsCounted | internal/cache/cache.go:152-159 | evictions are exactly the entries a Set pushes out and a resize cuts off |
| CacheLaws.PrefetchMeans | internal/cache/cache.go:205-212 | over runs, a Get starts a prefetch exactly when it is at least the third since the last Set, in the last tenth of the lifetime or in the stale window, and none is outstanding |
| CacheLaws.MarkKept | internal/cache/cache.go:213-224 | the mark of an outstanding prefetch stays until the key is Set again or the prefetch is over |
| CacheLaws.NegativeMeans | internal/cache/negative.go:16-45 | after every run a negative answer is held exactly when one was stored and neither deleted, flushed, replaced nor looked up too late since, and it is the one last stored |
| CacheLaws.NegativeAnswers | internal/cache/negative.go:29-45 | a negative answer is given exactly until its expiry, that instant included |
| Cache.Cache.constructor | internal/cache/cache.go:74-106 | an empty cache with the defaults filled in |
| Cache.Lookup | internal/cache/cache.go:142-143 | the map and the list agree: a key is in the map exactly when the list holds it, at the element the map names |
| Cache.Cache.Set | internal/cache/cache.go:121-160 | Set on the linked structure takes exactly the specified step |
| Cache.Cache.Get | internal/cache/cache.go:162-203 | Get likewise, result included |
| Cache.Cache.MaybePrefetch | internal/cache/cache.go:205-218 | the entry is marked and counted exactly when the guard holds |
| Cache.Cache.PrefetchDone | internal/cache/cache.go:218-224 | the end of a prefetch unmarks the entry now under that key |
| Cache.Cache.Delete | internal/cache/cache.go:229-237 | Delete likewise |
| Cache.Cache.Flush | internal/cache/cache.go:239-247 | Flush likewise |
| Cache.Cache.GetStaleOnError | internal/cache/stale.go:5-21 | GetStaleOnError likewise |
| Cache.Cache.ApplyRuntimeConfig | internal/cache/cache.go:282-318 | the settings and the eviction loop likewise |
| Cache.Cache.EvictOldest | internal/cache/cache.go:497-504 | removes the last element and counts it |
| Cache.Cache.RemoveElement | internal/cache/cache.go:506-515 | removes an element from list, map and byte count |
| Cache.Cache.SetNegative | internal/cache/negative.go:16-27 | SetNegative likewise |
| Cache.Cache.GetNegative | internal/cache/negative.go:29-45 | GetNegative likewise |
| Cache.Cache.Persist | internal/cache/cache.go:361-395 | however the map is walked, the snapshot lists each encodable entry once, and the negative entries |
| Cache.Cache.Load | internal/cache/cache.go:430-477 | Load rebuilds list, map and byte count as specified |
| Snapshots.Restore | internal/cache/cache.go:430-477 | Persist then Load with unchanged limits holds exactly the encodable entries with now <= staleUntil, each with its message up to name case, times, hits and TTL, the negatives with now < expiry, and the invariant |
| Snapshots.LoadInv | internal/cache/cache.go:430-477 | loading any snapshot with distinct keys re-establishes the invariant, and keeps the front of the list when there are too many |
| Snapshots.RestartKeepsAnswers | internal/cache/cache.go:361-477 | after any run, a later Get hits exactly when it would have and the entry encodes, as fresh or stale as it would have been, with the same message up to name case |
| Snapshots.RestartStaleOnError | internal/cache/cache.go:438-451 | a last good answer survives a restart exactly when the entry's stale window had not ended and its messages encode |
| Snapshots.RestartNegative | internal/cache/cache.go:468-472 | a negative answer survives a restart except at the very instant of its expiry |
| Snapshots.StaleAnswerLost | internal/cache/cache.go:438-441 | a run after which an answer is still served on error, and after a restart is not |
| Snapshots.NegativeAnswerLost | internal/cache/cache.go:468-472 | a run after which a negative answer is found at the instant of its expiry, and after a restart is not |
| RateLimiterSpec.RunBound | internal/security/ratelimit.go:56-81 | over every run of calls, with time moving forward, tokens stay in [0, burst] and admissions are paid for by the tokens earned |
| RateLimiterSpec.AdmittedBound | internal/security/ratelimit.go:56-81 | calls over t1..t2 admit at most burst + rate (t2 - t1) for an address, from any reachable state |
| RateLimiterSpec.RunSameLevels | internal/security/ratelimit.go:83-89 | when a bucket refills within the shortest idle time collected, collection changes no decision |
| RateLimiterSpec.SlowRefill | internal/security/ratelimit.go:56-89 | otherwise two whole bursts 120.000000001 s apart are all admitted, which no bucket that is kept allows |
| RateLimiterSpec.CollectionExactly | internal/security/ratelimit.go:83-89 | collection is harmless on all runs if and only if burst <= 120.000000001 s times the rate |
| RateLimiterSpec.BoundExactly | internal/security/ratelimit.go:56-89 | the token-bucket bound holds of all runs if and only if the same |
| RateLimiterSpec.LevelLater | internal/security/ratelimit.go:68-72 | what an address can spend grows by what the rate earns, up to the burst |
| RateLimiterSpec.StepLevel | internal/security/ratelimit.go:56-81 | a call is admitted whenever a whole token is there, and spends one; exactly then, and no other address loses or gains, when buckets refill in time |
| RateLimiterSpec.SpendAll | internal/security/ratelimit.go:56-81 | an address gets all it has at one instant |
| RateLimiterSpec.EarnedIs | internal/security/ratelimit.go:68-72 | a rate is tokens a second; refilling in time means that 120.000000001 s of it make a burst |
| RateLimiterSpec.Defaults | internal/security/ratelimit.go:31-47 | the defaults are 100 tokens a second and a burst of 200 |
| RateLimiterSpec.RunRemembers | internal/security/ratelimit.go:56-89 | after every run there is a bucket for each address that called in the last two minutes, and for none idle for three |
| RateLimiter.RateLimiter.Allow | internal/security/ratelimit.go:56-81 | the limiter as built takes the specified step |
| RateLimiter.RateLimiter.Collect | internal/security/ratelimit.go:83-89 | deleting while walking removes exactly the idle buckets |
| RateLimiter.RateLimiter.Update | internal/security/ratelimit.go:97-106 | only positive settings take effect |
| ResponseLimiterSpec.WindowCount | internal/security/rrl.go:53-82 | n calls of a tuple inside one second, among any others, admit exactly min(n, limit) + max(0, n - limit) div slip |
| ResponseLimiterSpec.WindowRestarts | internal/security/rrl.go:67-71 | a second after the first call of a window the next call starts another, as if there had been none |
| ResponseLimiterSpec.Defaults | internal/security/rrl.go:26-42 | the defaults are ten answers a window and every second one after that |
| ResponseLimiterSpec.DropsCounted | internal/security/rrl.go:53-88 | over every run drops equal calls minus admissions |
| ResponseLimiterSpec.CollectionHarmless | internal/security/rrl.go:90-96 | whatever the settings, and however they change, collecting idle buckets changes no decision |
| ResponseLimiter.RRL.Allow | internal/security/rrl.go:53-82 | the limiter as built takes the specified step |
| ResponseLimiter.RRL.Collect | internal/security/rrl.go:90-96 | removes exactly the idle buckets |
| ResponseLimiter.RRL.Update | internal/security/rrl.go:98-107 | only positive settings take effect |
| Breaker.Law | internal/resolver/circuit_breaker.go:73-126 | Closed opens exactly when the last failureThreshold outcomes since closing are failures; Open admits nothing until openTimeout after the latest failure; HalfOpen opens on any failure and closes exactly at the successThreshold-th success |
| Breaker.SummaryHolds | internal/resolver/circuit_breaker.go:73-126 | after every run the counters are what the history since the phase began says |
| Breaker.Defaults | internal/resolver/circuit_breaker.go:48-65 | five failures open, two successes close, after thirty seconds |
| Breaker.CircuitBreaker.Allow | internal/resolver/circuit_breaker.go:73-86 | the breaker as built takes the specified step |
| Breaker.CircuitBreaker.OnSuccess | internal/resolver/circuit_breaker.go:88-104 | likewise |
| Breaker.CircuitBreaker.OnFailure | internal/resolver/circuit_breaker.go:106-126 | likewise |
| Breaker.CircuitBreaker.UpdateConfig | internal/resolver/circuit_breaker.go:145-157 | only positive thresholds take effect |
| FanOut.RunInv | internal/resolver/iterative.go:29-107 | the invariant of the fan-out holds after every interleaving |
| FanOut.NeverBlocked | internal/resolver/iterative.go:36-59 | no sender ever waits for room or finds the channel closed, the caller having returned or not |
| FanOut.ClosedIsFinal | internal/resolver/iterative.go:67-70 | the channel is closed only after the last send |
| FanOut.OneOutcome | internal/resolver/iterative.go:50-60 | a breaker is told once for each admitted server, before its result is sent, and never for a refused one |
| FanOut.ReturnMeans | internal/resolver/iterative.go:63-106 | a message returned is the first success received; an error once a query has started means one event for every server and no success |
| FanOut.RunsAreShort | internal/resolver/iterative.go:29-107 | no interleaving takes more than 7n + 3 steps |
| FanOut.NoDeadlock | internal/resolver/iterative.go:29-107 | when nothing can move, the caller has returned, every goroutine has left and the channel is closed |
| Recursion.ResolveRecursive | internal/resolver/recursive.go:15-107 | the loop as built computes Run, for any upstream; what Run does with each reply is RecursionTurns.TurnInEveryRun |
| Recursion.Conclude | internal/resolver/recursive.go:84-104 | the end of a round without NXDOMAIN or alias takes the specified turn, which RecursionTurns.TurnExactly pins |
| Recursion.RoundMoves | internal/resolver/recursive.go:24-82 | each round takes one more step for the same name or follows one more alias |
| RecursionTurns.TurnInEveryRun | internal/resolver/recursive.go:51-106 | at every moment of every run: the run goes on exactly when its query is new, a message comes back, and that message is NXDOMAIN for less than the whole name, or has an alias for the name in hand that is within the limit and new, or is NOERROR without alias, answer or positive SOA and refers to servers; otherwise the run ends with that message as its answer, with one of the two alias failures, or with no servers when nothing at all was said |
| RecursionTurns.TurnExactly | internal/resolver/recursive.go:51-106 | the same of a single round, with the walk that comes after it: no minimisation, the target from the roots, or the servers referred to |
| RecursionTurns.QueriesFollowReplies | internal/resolver/recursive.go:58-104 | in every run each later query for a name goes to the servers selected from the reply before it, or to the same ones after a refusal |
| RecursionTurns.ReplyRead | internal/resolver/recursive.go:115-139 | an alias, its target, an answer and NODATA, said of the records of a reply by position |
| RecursionTurns.TTLFromSOAIs | internal/cache/negative.go:47-60 | the negative lifetime is the minimum field, in seconds, of the first authority record of type SOA with SOA data, and 0 without one |
| RecursionRuns.QueriesBounded | internal/resolver/recursive.go:24-107 | at most (MaxCNAMEDepth + 1) MaxRecursionDepth queries are sent |
| RecursionRuns.NoStateTwice | internal/resolver/recursive.go:34-38 | no name, type and set of servers is queried twice |
| RecursionRuns.RepeatIsReal | internal/resolver/recursive.go:34-38 | with IP texts for servers, a run stopped for a repeated state really repeats one |
| RecursionRuns.AliasDiscipline | internal/resolver/recursive.go:67-81 | aliases followed are at most MaxCNAMEDepth, pairwise distinct, each named by a CNAME owned by the one before in the reply to a query sent for that name, the queries coming in order |
| RecursionRuns.MinimisationDiscipline | internal/resolver/recursive.go:26-63 | each query is for the whole name or its last labels, one more each hop, and the fallback happens at most once |
| RecursionRuns.OutcomeJustified | internal/resolver/recursive.go:51-106 | what is returned is the last reply received and meets the conditions of its branch; each failure has its cause (when a run ends at all: RecursionTurns.TurnInEveryRun) |
| RecursionRuns.NameErrorIsForWholeName | internal/resolver/recursive.go:58-65 | NXDOMAIN is returned only for a query for the whole name |
| RecursionRuns.AliasNeverReturned | internal/resolver/recursive.go:67-81 | a reply with a CNAME for the name in hand is not returned for another type |
| RecursionExact.VisitGood | internal/resolver/recursive.go:24-107 | the invariant of the walk holds at every moment of every run |
| RecursionExact.RepeatExactly | internal/resolver/recursive.go:34-38 | a round stops for a repeated state exactly when the same name, type and set of servers has been sent |
| RecursionExact.AliasInEveryRun | internal/resolver/recursive.go:21-81 | for every alias followed in every run: the run stops there with a loop error exactly when an earlier name of the run started with the same query, or, once minimisation has been given up, when the whole target has been sent to the root servers before |
| RecursionExact.FollowedAliasExactly | internal/resolver/recursive.go:26-38 | the first half of that, in terms of names and types alone |
| RecursionExact.AliasBackToStart | internal/resolver/recursive.go:34-81 | without minimisation the only alias that cannot be followed is the one back to the name asked for |
| RecursionExact.SameTopLevelFails | internal/resolver/recursive.go:21-81 | with minimisation on, an alias to a name under the same top-level domain as an earlier name of the run, wherever it is met, always ends the run in a loop error |
| RecursionExact.NodataExactly | internal/resolver/recursive.go:26-89 | in all runs NODATA answers come from a query for the whole name if and only if minimisation is off, no query can be sent, or the name has one label at most and no alias can be followed |
| RecursionExact.NodataOfMinimisedName | internal/resolver/recursive.go:87-89 | a NODATA reply to the first, minimised query is returned for the whole name |
| RecursionExact.NodataBehindAlias | internal/resolver/recursive.go:67-89 | the same behind an alias, for a name of one label |
| Domains.NormalizeTwice | internal/resolver/bailiwick.go:34-43 | normalising is idempotent |
| Domains.NormalizeExactly | internal/resolver/bailiwick.go:34-43 | normalising drops the spaces around a name, folds the case of each octet and adds the final dot it lacks; nothing is the root |
| Domains.BailiwickIsTextual | internal/resolver/bailiwick.go:9-16 | in bailiwick means that the name's text ends in the zone's, label boundary or not |
| Domains.LabelSuffixText | internal/resolver/bailiwick.go:9-16 | labels of the zone end those of the name exactly when the zone is the root or the name, or its text follows a dot at the end of the name's |
| Domains.BailiwickExactly | internal/resolver/bailiwick.go:9-16 | InBailiwick agrees with being below the zone, label by label, exactly when the zone is the root or the name, the text does not end in the zone's, or does so after a dot |
| Domains.BailiwickTooWide | internal/resolver/bailiwick.go:16 | for every zone but the root a name in bailiwick that is not below it |
| Domains.MinimizedIs | internal/resolver/qname_minimization.go:5-32 | the name for a hop is the last hop + 1 whole labels, and the whole name exactly from the last hop on |
| Domains.MinimizedGrows | internal/resolver/qname_minimization.go:16-19 | from hop to hop one label is added in front |
| Domains.QNAMEMinimizationSteps | internal/resolver/qname_minimization.go:5-21 | the loop computes the steps |
| Referrals.Selection | internal/resolver/recursive.go:141-184 | servers are never repeated; they are exactly the addresses of the glue owned by a listed name server and in bailiwick, when there is any; the rejected count is exact (the zone: ReferralRules.ReferralExactly) |
| ReferralRules.ReferralExactly | internal/resolver/recursive.go:141-184 | for the last NS record, whichever it is: glue counts when it lies within the zone owned by that record and belongs to a listed server; when there is such glue the servers are exactly its addresses, and otherwise exactly those looked up; address records outside the zone are counted |
| ReferralRules.ZoneExactly | internal/resolver/recursive.go:141-152 | the zone is the owner of the NS record after which none is NS, and the root exactly when there is none |
| ReferralRules.NoReferral | internal/resolver/recursive.go:153-155 | when no name server is listed there are no servers and nothing is counted |
| ReferralRules.HostServersExactly | internal/resolver/recursive.go:186-222 | the servers looked up are exactly the addresses of the listed names, without their final dot |
| Referrals.RejectedExactly | internal/resolver/bailiwick.go:18-32 | rejected is the number of A and AAAA records out of bailiwick |
| Referrals.GlueServers | internal/resolver/recursive.go:162-177 | no duplicates, and the addresses of the listed servers' glue and no others (their order: ServersInOrder) |
| Referrals.ServersInOrder | internal/resolver/recursive.go:162-177 | the servers stand in the order in which the glue names them first |
| Referrals.NSNames | internal/resolver/recursive.go:142-152 | the normalised NS targets, each once |
| Referrals.Glue | internal/resolver/bailiwick.go:18-32 | the address records in bailiwick and no others (order and repetitions: GlueInOrder) |
| Referrals.GlueInOrder | internal/resolver/bailiwick.go:18-32 | filtering keeps the records at all positions that qualify, from left to right |
| Referrals.FilterGlueByBailiwick | internal/resolver/bailiwick.go:18-32 | the loop computes Glue |
| Referrals.NextReferralServers | internal/resolver/recursive.go:141-184 | the loops compute NextServers, which ReferralRules.ReferralExactly pins |
| Referrals.ResolveNSHostnames | internal/resolver/recursive.go:186-222 | however the set of names is walked, the servers are the same |
| Answers.HasAnswer | internal/resolver/recursive.go:115-126 | true exactly when some record has the type, and the owner unless the question is for CNAME |
| Answers.FindCNAME | internal/resolver/recursive.go:128-139 | the target of the first CNAME owned by the name, if there is one |
| Answers.MinTTLIs | internal/resolver/resolver.go:477-496 | the least positive TTL of all sections, 30 s when there is none |
| Answers.SOANameIs | internal/resolver/resolver.go:498-505 | the owner of the first authority record of type SOA |
| Answers.ComputeMinTTL | internal/resolver/resolver.go:477-496 | the running minimum computes it |
| Keys.TypeInjective | internal/protocol/types.go:56-98 | TypeToString tells all 65536 types apart |
| Keys.CacheKeyInjective | internal/resolver/resolver.go:473-475 | questions share a cache key if and only if they have the same normalised name and type |
| Keys.StateKeyExact | internal/resolver/recursive.go:109-113 | states with the same name, type and servers in any order share a key, and with IP texts for servers only they do |
| Sorting.SortCanonical | internal/resolver/recursive.go:110-111 | sorted lists agree exactly when their elements do |
| Resolving.OthersNotStored | internal/resolver/resolver.go:222-271 | a Resolve whose answer has another code, or neither records nor SOA, leaves in the cache what was there: all that is gone is what its own two lookups found expired |
| Resolving.StoreHolds | internal/resolver/resolver.go:261-271 | what is stored is held until now + its lifetime: the SOA minimum or the least TTL, at least minTTL and at most maxTTL |
| Resolving.QuietHolds | internal/cache/cache.go:121-203 | what was just stored is held through such operations |
| Resolving.HeldIsServed | internal/resolver/resolver.go:222-242 | what is held is served from the cache without a query: a negative answer with its code, the question and three empty sections, an answer as a faithful copy |
| Resolving.ServedLocally | internal/resolver/resolver.go:187-275 | after a Resolve that ended in NXDOMAIN, NODATA with SOA or NOERROR with answers, the same question within the lifetime, through lookups and through stores and removals of other keys fewer than maxEntries, sends no query and yields a faithful copy of what was stored, or for a negative answer the same code with the question and three empty sections |
| Resolving.BlockedSaysNo | internal/resolver/resolver.go:197-220 | a blocked name gets code 3 with its question and empty sections, and the cache is not touched |
| Resolving.FailureServed | internal/resolver/resolver.go:249-259 | after any run, a failed resolution is answered with the last good message exactly when its entry is still there and was Set at most staleMaxAge ago, and fails otherwise |
| Upstream.MatchesExactly | internal/security/case_randomizer.go:40-58 | Matches accepts exactly the very same text |
| Upstream.RandomizeFolds | internal/security/case_randomizer.go:15-38 | random case changes nothing for a reader that folds case |
| Upstream.RandomizeQName | internal/security/case_randomizer.go:15-38 | the loop over the octets computes Randomize |
| Upstream.AcceptedExactly | internal/resolver/iterative.go:329-344 | with random case a reply is accepted if and only if its first question is the one sent, letter by letter |
| Upstream.AcceptedFolded | internal/resolver/iterative.go:329-344 | without random case a reply is accepted if and only if its first question is the one sent up to case, spaces around it and a final dot |
| Upstream.QueryReads | internal/resolver/iterative.go:239-254 | the query decodes with the ID, RD and nothing else set, the one question with its letters, and an OPT record with the UDP size exactly with EDNS |
| Upstream.RandomizedAt | internal/security/case_randomizer.go:15-38 | each letter is in upper or lower case as its bit says, and no other octet changes |
| Upstream.FirstQuestionExact | internal/protocol/encoder.go:79-105 | compression and all, the first question of every message that encodes comes back with its letters as they were |
| Upstream.EchoAccepted | internal/resolver/iterative.go:239-344 | the query encodes, and every encodable reply that carries its question first decodes and passes the check |
| BlocklistSpec.DedupeSorted | internal/resolver/blocklist.go:165-176 | on a sorted list dedupeStrings drops every repetition and nothing else |
| BlocklistSpec.DomainsRoundTrip | internal/resolver/blocklist.go:125-137 | reading Domains back decides every domain as before, when no wildcard suffix ends in an empty label |
| BlocklistSpec.WildcardRoundTripExactly | internal/resolver/blocklist.go:125-137 | a list of one wildcard survives if and only if its suffix does not end in an empty label |
| BlocklistSpec.CoversExactly | internal/resolver/blocklist.go:106-114 | a wildcard covers what is properly below its suffix, label by label, exactly when the suffix is empty, the root or the domain, does not end the domain's text, or does so after a dot |
| BlocklistSpec.CoversTooWide | internal/resolver/blocklist.go:106-114 | for every wildcard with a suffix a domain it covers that is not below it |
| BlocklistSpec.LostDomain | internal/resolver/blocklist.go:125-137 | for every wildcard that does not survive, a domain blocked only after the list has been written out and read back |
| BlocklistSpec.TokensAreWords | internal/resolver/blocklist.go:139-163 | tokens hold neither spaces nor comment signs |
| BlocklistSpec.TokensExactly | internal/resolver/blocklist.go:139-163 | a line yields exactly the words before its first comment sign, whatever the spaces around them, less the first one when it is an address: four dotted numbers, "::1" or "0:0:0:0:0:0:0:1" |
| BlocklistSpec.SpreadOnce | internal/resolver/blocklist.go:150-153 | every text has exactly one list of words |
| BlocklistSpec.AllTokensExactly | internal/resolver/blocklist.go:64-91 | a text yields exactly what its lines yield |
| Blocklist.DedupeStrings | internal/resolver/blocklist.go:165-176 | writing over the front of the slice being read computes Dedupe of what it held |
| Blocklist.Blocklist.Replace | internal/resolver/blocklist.go:64-91 | the set and the list hold exactly the tokens of the text, each once |
| Blocklist.Blocklist.IsBlocked | internal/resolver/blocklist.go:93-117 | true exactly when the normalised domain is not the root and is an exact token or properly ends with a wildcard's suffix; hits are counted |
| Blocklist.Blocklist.Domains | internal/resolver/blocklist.go:125-137 | a sorted listing of exactly the tokens |
| Blocklist.DecidesAsTokens | internal/resolver/blocklist.go:93-117 | sorting and deduplicating lose and add no decision |

## Left out

- CacheRuns.Run: runs hold every operation but Load, whose effect is stated on its own (`Snapshots.LoadInv`, `Snapshots.Restore`).
- Resolving.ServedLocally: operations on the same key other than lookups, Flush and a resize in between may of course change the answer, and are excluded.
- RecursionRuns.Finished: the laws take the name in normalised form, as Resolve passes it.
- RecursionExact.AliasInEveryRun: servers are taken to be written without a bar or a comma, as IP addresses are; the state key joins them with these.
- Names with octets above 127: `strings.ToLower` and `strings.TrimSpace` are modelled on ASCII only.
- Messages received with dots inside labels, or a space in front of a name, are decoded, but such names are not taken back (`Names.CanonicalExactly`); Clone and Persist then keep or skip the message as the source does.
- Records with nil Data come back with their raw octets, and their Data may then parse (`MessageWire.RecordBack`).
- Error texts and which of several errors is reported: an error is one value.
- `Encode` normalising the counts of its argument in place, and cloneMessage returning the same pointer when the codec fails: messages are values, so aliasing is not modelled.
- `container/list` pointers: the list is a sequence of element objects; moving and removing are operations on that sequence.
- The mutexes: each cache, limiter and breaker method is one atomic step. In Resolve no other operation comes between its own lookups and its own store.
- Prefetch: the goroutine appears only as its end (PrefetchDone); the callback's own resolution is an ordinary Resolve.
- uint64 counters do not wrap upward; MemoryBytes subtraction does wrap as in the source, and is proved never to.
- Cache statistics other than the counters (entry counts, UpdatedAt), and List.
- JSON, files and renames in Persist and Load: a snapshot is a value. Load on a snapshot with the same key twice breaks the map, and is excluded by its requires clause.
- Load failing midway, and SavedAt.
- float64 rounding in the token bucket, and clocks that run backward.
- RateLimiter.BlockedIPs and TotalDrops, which forget the drops of collected buckets.
- Sockets, retries with backoff, the TCP fallback and cancellation: one query's fate in the fan-out is an arbitrary result, which comes at last.
- Which of several errors queryFastest returns.
- DNSSEC status labels: no validation is performed.
- resolver history, traces and events beyond the queries sent; telemetry, metrics and logging.
- New in the resolver filling in defaults: the depth limits are arbitrary integers here.
- The HTTP API, WebSocket framing, frontend, and environment parsing: interface code.
- The rest of HandlePacket (format errors, refusals, rate limits, counters).
