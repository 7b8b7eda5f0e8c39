# Elrond: verified model of its state machines, schedulers and parsers

Elrond is an Nginx-style reverse proxy. Sockets, TLS and HTTP framing are delegated to libraries;
what the repository decides itself is a set of hand-written state machines, allocators, schedulers
and parsers. This project models those in Dafny and proves what they are for. Run `dafny verify
dfyconfig.toml` to check everything.

## Components

**Response cache** (`VarySignature`, `ResponseCache`, `CachePolicy`, `CacheRuns`). `CacheStore` is
a class with the two fields of the source; its loops (retain, scan, soonest-to-expire search,
eviction) are methods proved against functions on a value `State`. `CacheRuns` is about whole
sequences of lookups and stores from an empty zone; each store brings the rules of its own
location, and clock readings come in any order, because they are taken before the lock. The table
always holds exactly the accepted stores that no later event dropped (`TableIsHistory`), and every
lookup is answered by the oldest of them that is unexpired and whose own Vary list gives the
request its signature (`HitIffOldestCandidate`). When the stores of a key share one Vary list this
is the latest store for the Vary values (`HitIffLatestStore`), as in section 4.1 of RFC 9111. Three
documented expectations fail, each with its exact condition:

- With several Vary lists under a key an older store can win: a variant without Vary answers until
  it expires, is evicted, or is replaced by another response without Vary
  (`UnvariedVariantShadows`, `OlderStoreWins`).
- A Vary token may contain `=`, and then signatures of different lists can coincide
  (`SignatureCollision`) and one variant replaces the other (`CollidingStoreReplaces`,
  `CollisionRun`); without `=` they never do (`SignatureSeparates`, `ReplacesIffSameVariant`).
- Only the first Cache-Control line of a response is read, so a response that a line forbids to
  store is stored exactly when the forbidding line comes after a harmless first one
  (`StoredThoughForbiddenIff`).

An entry larger than the whole zone is not stored and leaves an older variant in place.

**Limiters** (`LimitReq`, `LimitConn`). The token bucket is bounded over any stretch of any run by
a potential argument that pays for evictions. `allow` reads the clock before it takes the lock, so
a racing call can be applied with an older reading, and the time spanned does not bound the
accepted requests unless the readings are in order (`SpanBoundsIffInOrder`, `LateCallsOutrunSpan`);
the forward steps of the clock from call to call do, in every run (`TokenBucketBound`). For the
same reason a denied request is free exactly when it read the clock between its neighbours, unless
the bucket fills up anyhow (`DeniedCallIsFreeIff`, `DeniedCallNeverShowsIff`). The connection
limiter carries a ghost multiset of live guards. A cap of 0 enters its refused key in the table,
which is the only way to exceed the size bound (`GrowsPastIff`), and it does so for every limit
(`ZeroCapGrowsTable`).

**Load balancing, health and retries** (`Fairness`, `PeerHealth`, `HealthInterleaving`,
`Balancing`, `Proxying`). Weighted round-robin shares are exact between wraps of the 32-bit
counter, and across wraps exactly when the pool has one member or its total weight divides 2^32.
Health is modelled twice: with whole calls as steps it is a function of the outcome history; with
every atomic operation as a step the bound on the cooldown remains, and the history result holds as
long as no success is between its two stores while a failure has yet to store its cooldown
(`SeparateIsHistory`). From every state in which that happens, the calls in progress can end in a
health that no history explains (`OverlapCanLoseHistory`). The retry loop is verified with
everything other tasks do to the peers and to the round-robin counter as arbitrary input between
its steps. `Proxying` puts the cache around it: its stores are the store events of `CacheRuns`, and
a server error is never among them.

**Reload** (`ReloadSnapshots`, `Listeners`). One TLS listener is an interleaved step system of
channel writes and reads. In every interleaving a connection's acceptor is at least as new as its
config exactly when a reload that is at least as new had brought one by the time it was read
(`OrderedIff`); so a connection with a TLS config is always in order, and only a reload that makes
the listener plain can break the order (`PlainReloadBreaksOrder`). `Listeners` groups server blocks
and reconciles the running listeners with a new configuration.

**Configuration front end** (`ConfigSyntax`, `ConfigIncludes`). Lexer and parser are cursor loops
proved against recursive functions on the remaining input. However its tokens are written (bare,
in either quotes with escapes, between white space and comments), a text is lexed to exactly them
(`LexLayout`). The parser accepts exactly the flattened trees, and its errors are characterised
(`ParseErrors`); any tree of arbitrary strings survives printing, lexing and parsing. Includes are
expanded over an arbitrary finite set of files, cyclic or not, and loading succeeds exactly when
the visited-set-free recursive inlining is finite, that is, when the include graph below the root
is acyclic and resolvable.

**Dates and routing** (`HttpDate`, `Routing`). The subtracting calendar loops are checked against
closed-form Gregorian day counts and the weekday congruence of Sakamoto. Routing is characterised
on the declared list of locations.

## Model

| member | source | states |
|---|---|---|
| VarySignature.BuildSignature | src/cache.rs:213-229 | the loop renders `name=value\0` for each Vary name; absent and unreadable headers count as empty |
| VarySignature.VaryValueMeaning | src/cache.rs:218-226 | a request shows for a name the first header under it in lower case if that is tab or printable ASCII throughout, else nothing |
| VarySignature.SignatureInjective | src/cache.rs:210-229 | for one Vary list, two requests have the same signature exactly when they show the same value for every listed header |
| VarySignature.SameSignatureIffSameFields | src/cache.rs:213-229 | for any two Vary lists of names without NUL, the signatures are equal exactly when the rendered fields are |
| VarySignature.SignatureSeparates | src/cache.rs:210-229 | for lists of names without `=`, the signatures are equal exactly when list and values are |
| VarySignature.SignatureCollision | src/cache.rs:218-227 | any name with a `=` shares a signature with its part before the `=` |
| ResponseCache.FindSoonest | src/cache.rs:126-143 | the nested scans return an entry that no stored entry precedes in expiry, or nothing only if every list is empty |
| ResponseCache.Retain | src/cache.rs:80-87 | keeps the unexpired variants in order and adds up the bytes it drops |
| ResponseCache.EntryBytesIsLength | src/cache.rs:199-208 | the weight of an entry is the length of all the text it stores |
| ResponseCache.FindMatch | src/cache.rs:88-94 | finds the first variant whose own Vary list gives the request its signature |
| ResponseCache.CacheStore.Get | src/cache.rs:73-112 | result and new state of a lookup: expired variants of the key go, an emptied key goes, the counter drops by their bytes |
| ResponseCache.CacheStore.MakeRoom | src/cache.rs:123-172 | the eviction loop terminates with victims of any weight, never meets an empty store, and makes room |
| ResponseCache.CacheStore.Put | src/cache.rs:116-196 | an oversized entry changes nothing; otherwise legal evictions, then replacement of the namesake variant |
| ResponseCache.GetKeepsInv | src/cache.rs:79-105 | a lookup keeps the accounting invariant and its saturating subtraction is exact |
| ResponseCache.EvictKeepsInv | src/cache.rs:151-171 | an eviction keeps the accounting invariant and subtracts exactly the victim's bytes |
| ResponseCache.InsertKeepsInv | src/cache.rs:176-191 | an insertion keeps the accounting invariant and its subtraction is exact |
| ResponseCache.EvictionKeepsInv | src/cache.rs:123-172 | what the victims weighed is what the counter lost |
| ResponseCache.EvictionHolds | src/cache.rs:151-171 | eviction removes exactly what is filed where its victims were filed |
| ResponseCache.VictimStored | src/cache.rs:126-147 | every victim was in the store when the insertion began |
| ResponseCache.EvictionOrder | src/cache.rs:114-143 | victims leave in nondecreasing order of expiry |
| ResponseCache.SurvivorsExpireLater | src/cache.rs:126-143 | no surviving entry expires before a victim |
| ResponseCache.EvictionNeeded | src/cache.rs:123 | without the last victim the new entry would not have fitted |
| ResponseCache.EvictShrinks | src/cache.rs:154-159 | each eviction removes one entry even if it weighs 0 bytes |
| ResponseCache.PutHolds | src/cache.rs:116-191 | exactly which entries are stored after a put |
| ResponseCache.GetPrecedes | src/cache.rs:80-87 | a lookup leaves the variants of every key in their order |
| ResponseCache.PutPrecedes | src/cache.rs:176-189 | a put leaves them in their order and files the new entry behind them |
| CachePolicy.ParseVary | src/cache.rs:235-248 | the lower-cased, trimmed, non-empty tokens of all readable Vary lines in order |
| CachePolicy.ListVaries | src/cache.rs:235-248 | a comma-separated Vary line, with any blanks, lists exactly its names in order; further lines add theirs |
| CachePolicy.NamesAreLower | src/cache.rs:240-245 | no name is empty or has a capital letter |
| CachePolicy.DecideCaching | src/cache.rs:257-296 | the decision and its reason: method, Set-Cookie, Vary star, Cache-Control, size, last matching rule |
| CachePolicy.StoredMeaning | src/cache.rs:257-296 | when a response is stored: a GET, no Set-Cookie, no `*`, first Cache-Control line harmless, at most 4,194,304 bytes, a rule for its status |
| CachePolicy.ReasonMeaning | src/cache.rs:264-284 | the reason given is the first test that fails |
| CachePolicy.ListForbids | src/cache.rs:274-281 | a readable Cache-Control line, with any blanks and capitals, forbids exactly if `no-store`, `private` or `no-cache` is in its list |
| CachePolicy.UnreadableAllows | src/cache.rs:274-275 | a line with any other character than tab and printable ASCII is ignored |
| CachePolicy.LastRuleMeaning | src/cache.rs:286-291 | the lifetime is that of the last rule that names the status or none at all |
| CachePolicy.VaryListLacksNul | src/cache.rs:235-248 | no name in a Vary list contains NUL |
| CachePolicy.OverlookedIffTooLate | src/cache.rs:274-281 | a forbidding Cache-Control line is overlooked exactly when the first line does not forbid and a later one does |
| CachePolicy.StoredThoughForbiddenIff | src/cache.rs:257-296 | a response that some Cache-Control line forbids to store is stored exactly when that line comes too late and the other five tests pass |
| CachePolicy.PublicThenNoStore | src/cache.rs:274-281 | `public` in the first line and `no-store` in a later one is such a response, for all other headers, statuses, sizes and rules |
| CachePolicy.OneLineIsEnough | src/cache.rs:274-281 | with at most one Cache-Control line the decision honours every line |
| CachePolicy.MaybeCache | src/proxy.rs:444-502 | a response is passed on with the store untouched (emptied if its body could not be read), or stored with the signature of the request that fetched it |
| CacheRuns.RunKeepsInv | src/cache.rs:73-196 | in every state of every run the counter is the sum of the entry sizes and within budget, no key is empty, signatures are distinct |
| CacheRuns.TableIsHistory | src/cache.rs:73-196 | the table holds exactly the accepted stores that no later event dropped |
| CacheRuns.HitIsSound | src/cache.rs:73-112 | a hit has the status, headers and body of a response stored under the same key that was cacheable and no server error, has not expired and agrees with the request on every header it varies on |
| CacheRuns.NoServerErrorHeld | src/proxy.rs:275-287 | in every run no server error is in the table, whatever statuses the rules cover |
| CacheRuns.OlderFirst | src/cache.rs:176-189 | in every run the variants of a key stand in the order in which they were stored |
| CacheRuns.HitIffOldestCandidate | src/cache.rs:73-112 | whatever the Vary lists, a lookup answers exactly with the oldest store of its key that is still in the table, unexpired, and whose own Vary list gives the request its signature |
| CacheRuns.LatestAnswersIff | src/cache.rs:88-94 | the latest store that could answer does exactly when no other could |
| CacheRuns.HitIffLatestStore | src/cache.rs:73-191 | with one Vary list per key, a lookup answers exactly with the latest accepted store for its Vary values unless that has expired or was evicted |
| CacheRuns.UnvariedVariantShadows | src/cache.rs:88-94 | while a variant stored without Vary stays in the table unexpired, nothing stored after it under its key is answered |
| CacheRuns.OlderStoreWins | src/cache.rs:88-94 | runs in which the older store answers the very request that fetched the newer one |
| CacheRuns.OlderStoreWinsExample | src/cache.rs:88-94 | one such run for every plain header name |
| CacheRuns.ReplacesIffSameVariant | src/cache.rs:176-189 | without `=` in Vary names, a store replaces exactly the variant with its own Vary list and values |
| CacheRuns.CollidingStoreReplaces | src/cache.rs:176-189 | a store replaces a variant with its signature even if the Vary list is another |
| CacheRuns.CollisionRun | src/cache.rs:176-189 | a run, for any two plain words, in which a collision loses a variant and its own request is not answered |
| LimitReq.FindOldest | src/limit.rs:91-95 | the scan returns a key whose bucket has the least reading |
| LimitReq.LimitReqZone.Allow | src/limit.rs:81-118 | evicted key, decision and new table of one request |
| LimitReq.EvictsOnlyWhenFull | src/limit.rs:89-100 | a bucket is evicted only for a new key and from a full table |
| LimitReq.EvictedIsLeastRecent | src/limit.rs:89-100 | with calls in strict order of their readings, since its last call an evicted key has seen calls for at least max_entries other keys |
| LimitReq.LateCallIsEvicted | src/limit.rs:83-100 | a late call makes its key the next victim, although it was called last |
| LimitReq.TableStaysBounded | src/limit.rs:89-104 | the table never exceeds max(1, max_entries) |
| LimitReq.TokensStayInRange | src/limit.rs:101-112 | tokens stay between 0 and burst + 1 |
| LimitReq.NewKeyBurst | src/limit.rs:82-117 | a new key is granted burst + 1 requests at one reading and denied the next |
| LimitReq.NextGrant | src/limit.rs:106-117 | after a denial the next request is granted exactly when the rate has made up for the missing part of a token |
| LimitReq.StepCovered | src/limit.rs:81-118 | one request, with any clock reading, keeps the potential of a key covered by bucket credits and refill |
| LimitReq.TokenBucketBound | src/limit.rs:81-118 | accepted requests number at most (1 + evictions) * (burst + 1) + rate * F, F being the forward steps of the clock between consecutive calls |
| LimitReq.ForwardIsSpanPlusDrift | src/limit.rs:83-84 | F is the time T between first and last call plus the steps back |
| LimitReq.TokenBucketBoundInOrder | src/limit.rs:81-118 | with calls in the order of their readings, the bound with T |
| LimitReq.SpanBoundsIffInOrder | src/limit.rs:81-118 | the bound with T holds in every stretch of every run over given readings exactly when they are in order |
| LimitReq.LateCallsOutrunSpan | src/limit.rs:83-108 | with late calls the bound with T fails without limit, and the one with F is met with equality |
| LimitReq.RefillComposes | src/limit.rs:106-108 | clamped lazy refill composes over an interval split at a reading in between |
| LimitReq.KeyRunsAlone | src/limit.rs:101-117 | a key that is not evicted sees its own bucket only |
| LimitReq.DeniedRequestsAreFree | src/limit.rs:106-117 | leaving out denied requests of such a key, each read between its neighbours, changes no other decision on it |
| LimitReq.DeniedCallIsFreeIff | src/limit.rs:106-117 | a denied call leaves the next one unchanged exactly when it was read between its neighbours or the bucket is full by then |
| LimitReq.DeniedCallNeverShowsIff | src/limit.rs:106-117 | under the same condition, and only then, no sequence of later calls is decided differently |
| LimitReq.MonotoneIsOrderly | src/limit.rs:83-84 | with calls in the order of their readings, any denied requests may be left out |
| LimitReq.LateDenialCounts | src/limit.rs:106-109 | a late denied request turns a later denial into an acceptance |
| LimitConn.FindIdle | src/limit.rs:181-184 | the scan returns a key with count 0 if there is one |
| LimitConn.LimitConnZone.TryAcquire | src/limit.rs:172-200 | accepts exactly below the cap; new table and guards |
| LimitConn.PurgesOnlyWhenFull | src/limit.rs:178-187 | an entry is purged only for a new key, from a full table, and when nobody holds it |
| LimitConn.LimitConnZone.DropGuard | src/limit.rs:210-218 | dropping a live guard lowers its key's count by exactly 1 |
| LimitConn.CountsAreLiveGuards | src/limit.rs:172-217 | in every run each stored count is the number of live guards, absent meaning 0 |
| LimitConn.GuardsWithinCap | src/limit.rs:189-195 | a key called with one cap never has more live guards than the cap, and is denied exactly at it |
| LimitConn.TableStaysBounded | src/limit.rs:178-189 | the table never exceeds max(max_entries, most keys held at once), plus one if caps may be 0 |
| LimitConn.GrowsPastIff | src/limit.rs:178-193 | a step exceeds table size, limit and keys held exactly when a cap of 0 enters its key in a full table without idle entry |
| LimitConn.BoundedUnlessRefused | src/limit.rs:178-193 | a run without such a step stays within max(max_entries, most keys held at once), whatever its caps |
| LimitConn.ZeroCapGrowsTable | src/limit.rs:189-193 | for every max_entries a run with a cap of 0 exceeds the bound by one |
| Fairness.PickWeightedRr | src/app.rs:444-459 | the loop picks the owner of the slot and never reaches its fallback; no pick exactly when the 32-bit sum of weights is 0 |
| Fairness.SlotOwner | src/app.rs:450-457 | a member owns the slots between its prefix sums |
| Fairness.RoundRobinShare | src/app.rs:444-459 | share of each member over any window that does not cross a multiple of 2^32 |
| Fairness.RoundRobinPeriod | src/app.rs:444-459 | such a period picks each member exactly its weight |
| Fairness.StraddlingPeriod | src/app.rs:449-450 | the period across the wrap gives the first of several members too many picks if the total does not divide 2^32 |
| Fairness.FairAcrossWrapIff | src/app.rs:444-459 | every period is exact if and only if the pool has one member or its total weight divides 2^32 |
| Fairness.PickLeastConn | src/app.rs:461-470 | the first member of least score |
| Fairness.ScoreFits | src/app.rs:465-467 | the score and its numerator fit in 64 bits |
| Fairness.LeastConnError | src/app.rs:461-470 | the cross-multiplied error of the choice is below w_c * w_o / 1,000,000 |
| Fairness.LeastConnExact | src/app.rs:461-470 | the choice is exact against members if the least common multiple of w_c and w_o is at most 1,000,000, and against all if w_c divides 1,000,000 |
| Fairness.TiesWithIdleIff | src/app.rs:461-470 | a busy member scores no worse than an idle one exactly when its in-flight count times 1,000,000 is below its weight |
| PeerHealth.HealthIsHistory | src/app.rs:336-350 | no cooldown while fewer than max(1, max_fails) failures followed the last success, otherwise last failure time plus fail_timeout |
| PeerHealth.StreakMeaning | src/app.rs:336-345 | the streak counts the failures since the last success |
| PeerHealth.Peer.IsAvailable | src/app.rs:328-334 | available exactly when not down and the streak is below the threshold or its cooldown has passed |
| PeerHealth.Peer.RecordSuccess | src/app.rs:337-340 | appends a success to the history the health refines |
| PeerHealth.Peer.RecordFailure | src/app.rs:344-350 | appends a failure to the history the health refines |
| HealthInterleaving.CooldownStaysBounded | src/app.rs:337-350 | in every interleaving of atomic steps the cooldown ends by the latest clock read plus fail_timeout |
| HealthInterleaving.PeerRecovers | src/app.rs:328-350 | a peer that stops failing becomes available again |
| HealthInterleaving.SeparateIsHistory | src/app.rs:337-350 | in every interleaving that keeps the stores of successes and failures separate, the health between calls is the replay of the completed calls |
| HealthInterleaving.OneCallerIsSeparate | src/app.rs:337-350 | one caller at a time keeps them separate |
| HealthInterleaving.OverlapCanLoseHistory | src/app.rs:338-348 | from every state of a run that does not, the calls in progress can take the run to an end that no history explains |
| HealthInterleaving.RaceErasesCooldown | src/app.rs:338-339 | a success overtaken between its two stores erases a cooldown, in a state no sequential order reaches |
| Balancing.PoolMembers | src/app.rs:415-435 | exactly who is in the pool: neither down nor cooling nor tried, a backup only if no primary is so; and when it is empty |
| Balancing.Choose | src/app.rs:437-441 | the choice each method makes from a pool, and when it makes none |
| Balancing.ShareOfPicks | src/app.rs:408-459 | share of each peer over successive round-robin picks from an unchanged pool |
| Balancing.Balancer.Pick | src/app.rs:408-442 | nothing exactly when the pool is empty or round-robin finds its 32-bit weight 0, else a chosen member that is neither down nor cooling nor excluded; only round-robin moves the counter |
| Balancing.Balancer.TryPeer | src/proxy.rs:264-298 | one attempt: in-flight up, answer, one health outcome, in-flight down |
| Balancing.Balancer.Forward | src/proxy.rs:255-301 | the retry loop: at most min(3, max(1, peers)) attempts, each to the peer its method chooses from the pool of its turn, the verdict, one outcome per attempt, in-flight counts as before, stops early only on a good answer or when nobody can be picked |
| Balancing.Balancer.ForwardOnce | src/proxy.rs:306-361 | the single attempt for methods that are not retried |
| Balancing.AddressesDistinct | src/proxy.rs:285-295 | no address is tried twice |
| Balancing.AttemptsEligible | src/app.rs:415-431 | each attempt goes to a peer that is neither down nor cooling nor tried at its pick; to a backup only when every primary is one of these |
| Balancing.RecordsMeaning | src/proxy.rs:276-297 | each attempt is reported as a success exactly for a reply outside 500 to 599 |
| Balancing.AttemptHealth | src/proxy.rs:276-297 | what an attempt makes of the health of every peer |
| Balancing.PeerInTurn | src/app.rs:444-459 | round-robin attempts go to the peer in whose share of the weights the 32-bit counter falls |
| Balancing.LeastLoaded | src/app.rs:461-470 | least-connections attempts go to the first peer of least load in millionths per weight |
| Balancing.HashedPeer | src/app.rs:472-485 | hashed attempts go to the pool member that the hash counts to |
| Balancing.MaxAttemptsMeaning | src/proxy.rs:255 | one attempt for at most one peer, two for two, three for more |
| Balancing.VerdictMeaning | src/proxy.rs:280-301 | the first answer that is not 5xx, else the last 5xx, else 502 |
| Proxying.GoodVerdictIsLast | src/proxy.rs:275-287 | a good verdict is the answer of the last attempt, and the only one that ends the loop |
| Proxying.Forward | src/proxy.rs:198-301 | a hit is answered without touching a peer; a miss gets the verdict of the attempts and changes the store by one store event at most, never of a server error |
| ReloadSnapshots.ChannelsHold | src/supervisor.rs:137-167 | what the two channels hold relative to the reloads begun and sent |
| ReloadSnapshots.OrderedIff | src/supervisor.rs:137-167 | in every interleaving, a connection's acceptor is at least as new as its config exactly when a reload at least as new had brought one |
| ReloadSnapshots.TlsConfigIsOrdered | src/supervisor.rs:137-167 | so every connection with a TLS config is in order, whatever the other reloads |
| ReloadSnapshots.PlainReloadBreaksOrder | src/supervisor.rs:158-167 | a reload to a plain config does break the order |
| ReloadSnapshots.SnapshotOrder | src/supervisor.rs:137-167 | without a change of TLS mode each connection's acceptor is at least as new as its config |
| ReloadSnapshots.SameVersionIff | src/server.rs:75-81 | ... and of the same version exactly when no later reload had begun |
| ReloadSnapshots.MixedSnapshot | src/server.rs:75-81 | an accept between the two sends takes the new acceptor with the old config |
| ReloadSnapshots.RequestsUseAcceptedConfig | src/server.rs:75-121 | every request uses the config in force when its connection was accepted |
| Listeners.Group | src/app.rs:817-847 | refuses exactly the mixed configurations; otherwise one listener per address with its blocks in order |
| Listeners.GroupedExtends | src/app.rs:826-846 | each block adds its virtual host and certificate behind those of its address declared before it |
| Listeners.OrderProperties | src/app.rs:818-884 | the listener addresses are distinct and are those of the blocks |
| Listeners.AllOrNoneTls | src/app.rs:831-845 | the blocks of a listener all carry a certificate or none does |
| Listeners.WantedKeepsAll | src/supervisor.rs:132-133 | the wanted table loses none of the built listeners |
| Listeners.Reconcile | src/supervisor.rs:135-176 | the drain loop: kept listeners with their new config, stopped tasks, addresses still missing |
| Listeners.StartAll | src/supervisor.rs:177-186 | the bind loop starts one listener per missing bindable address |
| Listeners.Supervisor.ReloadHttp | src/supervisor.rs:131-188 | one reload as a whole, keeping addresses and tasks distinct |
| Listeners.ReloadAddresses | src/supervisor.rs:131-188 | the running addresses are the wanted ones that ran already or could be bound, each once |
| Listeners.ReloadRetains | src/supervisor.rs:136-176 | a wanted listener keeps its task and TLS mode and gets the new config; the others are told to stop |
| Listeners.StoppedAreUnwanted | src/supervisor.rs:168-175 | only listeners that are not wanted are told to stop, each once |
| Listeners.StartedMode | src/supervisor.rs:262-273 | a started listener has an acceptor, from its own config, exactly when that has a certificate |
| Listeners.NewAddressMode | src/supervisor.rs:177-186 | a newly served address terminates TLS exactly when its blocks carry certificates |
| Listeners.ModeStays | src/supervisor.rs:139-163 | over runs an address keeps its TLS mode as long as its task serves it |
| Listeners.ReloadServesBlocks | src/supervisor.rs:131-188 | from server blocks to listeners: the addresses of the blocks that ran or can be bound have one listener each, with the config grouped from their blocks |
| Listeners.AllBound | src/supervisor.rs:131-188 | when every address binds, exactly the built listeners run |
| Listeners.SameConfigReplacesNothing | src/supervisor.rs:131-188 | reloading the running addresses stops, starts and replaces no task |
| Listeners.RunKeepsInv | src/supervisor.rs:131-188 | over every run of reloads addresses and tasks stay distinct |
| Listeners.TaskSurvives | src/supervisor.rs:136-167 | an address wanted throughout a run of reloads is served by one task throughout |
| Listeners.StoppedForGood | src/supervisor.rs:168-175 | a task that was told to stop never serves again |
| ConfigSyntax.LexQuoted | src/config/lexer.rs:56-88 | a quoted string with escapes, its end line, or an unterminated string |
| ConfigSyntax.Lex | src/config/lexer.rs:22-104 | tokens and lines of a text, or the unterminated string's line |
| ConfigSyntax.WhitespaceChars | src/config/lexer.rs:33-35 | white space is the 25 White_Space characters of Unicode |
| ConfigSyntax.LexPlain | src/config/lexer.rs:89-100 | a bareword is one token up to white space, a brace, a semicolon, a hash or the end |
| ConfigSyntax.RawInQuotes | src/config/lexer.rs:56-88 | quoted text without quotes and backslashes is taken as it is and its newlines count |
| ConfigSyntax.OtherEscapes | src/config/lexer.rs:64-75 | a backslash before any character but n, t and r stands for that character |
| ConfigSyntax.Unterminated | src/config/lexer.rs:70-86 | a missing closing quote is an error on the line of the opening one |
| ConfigSyntax.ParseBlock | src/config/parser.rs:24-92 | directives up to the end or the closing brace, with the same errors and lines |
| ConfigSyntax.Parse | src/config/parser.rs:16-20 | the whole token sequence is consumed |
| ConfigSyntax.ParseIsSound | src/config/parser.rs:24-92 | what is parsed is spelled by the tokens consumed |
| ConfigSyntax.ParseIsComplete | src/config/parser.rs:24-92 | whatever spells a tree is parsed into that tree |
| ConfigSyntax.ParseIffSpelled | src/config/parser.rs:16-92 | parse succeeds exactly on the flattenings of directive trees and returns that tree |
| ConfigSyntax.ParseErrors | src/config/parser.rs:24-92 | after complete directives, which token is refused with which error and line |
| ConfigSyntax.LexPrint | src/config/lexer.rs:22-104 | any token sequence survives printing and lexing |
| ConfigSyntax.PrintRoundTrip | src/config/lexer.rs:22-104 | any tree of arbitrary strings survives printing, lexing and parsing |
| ConfigSyntax.LexLayout | src/config/lexer.rs:22-104 | however tokens are written, bare, in either quotes with escapes, between white space and comments, the text is lexed to exactly them on their lines |
| ConfigSyntax.LayoutRoundTrip | src/config/lexer.rs:22-104 | any text in such a layout that spells a tree is lexed and parsed to that tree |
| ConfigIncludes.ExpandIncludes | src/config/mod.rs:52-98 | terminates on every finite file set; result as specified; on success the visited set is restored |
| ConfigIncludes.LoadDirectives | src/config/mod.rs:22-38 | the file part of load |
| ConfigIncludes.IncludeStep | src/config/mod.rs:58-79 | an include is the content of the file its first argument resolves to, expanded in that file's own directory |
| ConfigIncludes.IncludeFails | src/config/mod.rs:59-77 | the errors of an include, in the order of the checks |
| ConfigIncludes.NestedInclude | src/config/mod.rs:52-98 | nested includes resolve each argument from the directory of the file it stands in |
| ConfigIncludes.ExpandIsInline | src/config/mod.rs:52-98 | a successful expansion is the recursive inlining |
| ConfigIncludes.InlineIsExpanded | src/config/mod.rs:71-76 | the visited set rejects only what has no finite inlining |
| ConfigIncludes.LoadIffInlinable | src/config/mod.rs:22-98 | loading succeeds exactly when the root has a finite recursive inlining, and equals it |
| ConfigIncludes.AcyclicLoads | src/config/mod.rs:52-98 | every acyclic resolvable include graph loads, also with a file on several branches |
| ConfigIncludes.LoadsIffAcyclic | src/config/mod.rs:22-98 | loading succeeds exactly when the include graph below the root is acyclic and resolvable |
| ConfigIncludes.ExpansionHasNoInclude | src/config/mod.rs:58-95 | no include is left at any depth |
| HttpDate.DaysToDate | src/http_date.rs:24-49 | the valid Gregorian date whose closed-form day number is the input, its year cut to 32 bits |
| HttpDate.DateOrder | src/http_date.rs:24-49 | later days are lexicographically later dates |
| HttpDate.WeekdayOfDay | src/http_date.rs:14-15 | the weekday formula agrees with the weekday of the date |
| HttpDate.Format | src/http_date.rs:8-22 | the text shows a valid date and time of day that recombine to the seconds, with the weekday of the date |
| HttpDate.RenderReadsBack | src/http_date.rs:17-21 | every field of the text reads back at its place |
| HttpDate.WeekdayNames | src/http_date.rs:16 | the names of the days |
| HttpDate.MonthNames | src/http_date.rs:17-20 | the names of the months |
| HttpDate.TextNamesSecond | src/http_date.rs:8-22 | two second counts have the same text exactly when they are equal, while years fit in 32 bits |
| Routing.SortOrdered | src/app.rs:764 | the sort puts longer paths first and keeps declaration order among equals |
| Routing.Build | src/app.rs:746-764 | the three location lists of a server |
| Routing.Route | src/app.rs:106-123 | the exact location with that path, else the first regex that matches, else the first of the longest prefixes, spelled out; nothing exactly when nothing matches |
| Routing.RoutedAnswers | src/app.rs:97-123 | this is the preferred match of the declared list |
| Routing.RoutedUnique | src/app.rs:97-123 | the preferred match is unique |

## Left out

- Balancing.Balancer: peers are records in a sequence of the balancer instead of shared objects, so aliasing of one peer between balancers is not modelled; what other tasks do to a peer is an arbitrary input.
- Proxying.Forward: the in-flight guard of the last attempt is dropped before the answer is stored, not after; building requests and marking headers are left out.
- LimitReq.LimitReqZone.Allow: tokens and times are exact reals; rounding of floating-point numbers is not modelled.
- LimitReq.DeniedRequestsAreFree: says nothing about a key that is evicted, because a denied request does refresh its key's place in the eviction order.
- CacheRuns.HitIffLatestStore: needs one Vary list per key, because an older variant with another list can answer first; `CacheRuns.HitIffOldestCandidate` has no such need.
- Fairness.RoundRobinShare: needs the total weight to fit in 32 bits, in which the source sums the weights.
- Fairness.PickWeightedRr: follows a release build, in which the sum of weights wraps; a debug build panics on that overflow.
- HealthInterleaving.OverlapCanLoseHistory: needs a positive fail_timeout; with 0 a cooldown is over when it begins.
- Listeners.ReloadRetains: whether a retained task has ended in the meantime is not modelled; the source keeps it and logs a warning.
- ConfigSyntax.PrintRoundTrip: ignores line numbers; a newline behind a backslash is not counted by the lexer, and the model follows it.
- Routing.SortOrdered: the library sort is a function with the contract of a stable sort, not the in-place algorithm.
- Regex matching, the client address hash, bind results, clock readings and upstream answers are arbitrary inputs.
- Metrics, logging, poisoned locks and overflow of byte and failure counters.
- Stream and HTTP/3 listeners in a reload, and the merge of `ssl_protocols`.
- Validation of directives (src/config/build.rs), access rules, static files, gzip, authentication and mirroring: flat checks and thin wrappers.
