# Verified cores of crate

Crate runs FreeBSD jails: a command-line tool, a daemon (`crated`) and a hub that watches many daemons. This project
models the parts of it that decide something non-trivial and proves what they are for. Nothing here does I/O: reads,
clocks, mounts and probes are parameters, and every result holds for all their values.

| module | what it models |
|---|---|
| `Calendar`, `StreamName` | backup timestamps and stream file names: printing, parsing, ordering |
| `Retention`, `Buckets` | the retention policy as a specification: which fulls, by which hour, day, week and calendar month, which chains of incrementals |
| `Prune`, `PruneWalk`, `PruneAll` | the pruning loops and sorts, proved against `Retention` |
| `WsFrame`, `WsPump`, `FrameSamples` | WebSocket frames, the console's receive loop, and what is on the wire, with the frames of section 5.7 of RFC 6455 |
| `Sha1Hash`, `Base64Text`, `Handshake` | SHA-1 and Base64, and the accept key made of them |
| `Bits`, `WordVectors`, `Sha1Trace`, `SampleBlocks`, `AcceptSample` | single bits, the 32-bit words as bit vectors, and the handshake of section 1.3 of RFC 6455 followed round by round to its accept key |
| `Scheduling`, `Failover` | the hub's least-loaded scheduler, the node poller and the failover orders |
| `Json`, `Aggregator`, `Envelope` | JSON text with all its whitespace and escapes, the hub's scanners over it, and the bodies they accept |
| `AutoFw`, `RdrRules` | firewall ids and the parsers of `ipfw` and `pfctl` listings, against their printers |
| `HttpHead`, `ControlSocket` | the control socket's request framing and head parser |
| `RateLimit`, `DevfsClaims` | the request limiter and the devfs-ruleset claims, over whole interleaved runs |
| `Text`, `Lines`, `Sorting`, `Arithmetic` | substring search, digits, lines, words; `std::sort` as a sorted permutation; quotients and remainders |

Code that updates things in place is a `class` or a `method` with loops (`Pump`, `Poller`, `Conn`, `Limiter`,
`Registry`, the in-place SHA-1 buffers, the scanners and listing parsers); its contract ties it to a function, and the
theorems are about that function or about runs of it.

Where the code fails a property that its documentation suggests, the code is modelled as it is and the failing family
is delimited exactly:

- A suffix with a day or second that does not exist is accepted, so two suffixes can name one moment
  (`Calendar.ParsedSuffixIsPrinted`, `Calendar.SuffixAliases`).
- A stream of a jail whose name holds the incremental tag cannot be read back (`StreamName.NameRoundTrip`).
- An incremental whose base is kept can be orphaned, and with `--delete-orphans` deleted, against
  `lib/backup_prune_pure.h:100`: exactly when it is on no kept full and every kept incremental it is built on is walked
  after it, by date and then name (`Retention.NoneStrandedIff`, `Retention.FixpointIff`).
- A `Close` frame ends the session only after the rest of its read has been handled, so the handled frames depend on the
  split exactly when some frame follows the first Close (`WsPump.SplitImmaterialIff`).
- Below ten containers a migration is reversed or sent on at once, except in the cases `Scheduling.SettlesIff` lists. The
  runs from a cluster are bounded exactly when none of them makes a flat move, one from m + 1 to m containers with m below
  ten (`Scheduling.BoundedIff`).
- A port forward on an interface called `port` is invisible to the port search (`RdrRules.RuleRoundTrip`).
- A request head that ends between byte 8193 and byte 9215 is served or refused depending on how it arrives
  (`ControlSocket.SplitImmaterialIff`).
- A threshold of zero or less, which the hub's configuration allows (`hub/poller.cpp:28-29`), fails over a listed primary
  that was never polled; in every other case the orders are right (`Failover.OrderIff`).
- A request limit is exceeded in a second exactly when the key comes back to that second after another and asks for more
  than its cap in all (`RateLimit.GrantedIsCappedIff`).
- In jls output without an enclosing `"data"`, that text is taken for the key wherever it stands. If the value behind the
  next colon is an array, that array is returned; if it is not and lies behind the key `"jail-information"`, the list is
  lost; only otherwise does the jail list come back (`Envelope.BareExtracts`, with the witnesses
  `Envelope.JailNamedDataIsLost` and `Envelope.DataStringHidesList`).

Where code and documentation disagree, the code was followed:

- `hub/aggregator_pure.h:52-54` says brackets inside strings are not handled; the scanner handles them.
- `lib/backup_prune_pure.h:107-108` reads as if `--delete-orphans` removed files with an unreadable timestamp; it does not.
- `hub/ha_pure.h:95-96` gives names 1 to 64 characters; the code allows 128.
- The comment at `daemon/privops_handlers.cpp:1131-1132` says two tenants racing for a free ruleset cannot both get it.
  That holds if and only if the `mount_path` of the first request is a live devfs mount (`DevfsClaims.RaceIff`,
  `DevfsClaims.TakeoverIff`). crate itself mounts the devfs before it asks (`lib/run.cpp:983`); a request that names a path
  without one is granted and does not hold the ruleset.

## Model

| member | source | states |
|---|---|---|
| `Calendar.Gmtime` | lib/backup_pure.cpp:17-24 | the broken-down time of a moment is an existing date whose year-by-year, month-by-month count gives the moment back |
| `Calendar.ClosedFormCounts` | lib/backup_prune_pure.cpp:33-43 | the closed-form conversion equals the plain Gregorian count for every month from 1970 on and any day and time fields |
| `Calendar.DateIsUnique` | lib/backup_prune_pure.cpp:33-43 | two existing dates with the same count are the same date |
| `Calendar.YearWithinFourDigits` | lib/backup_pure.cpp:17-28 | the year prints in four digits exactly up to 253402300799 |
| `Calendar.SuffixRoundTrip` | lib/backup_prune_pure.cpp:76-110 | parsing a printed suffix returns the moment, for every moment 1 to 253402300799 |
| `Calendar.SuffixOrderIsTimeOrder` | lib/backup_pure.cpp:17-28 | on that range suffixes compare as text exactly as their moments do |
| `Calendar.ParsedSuffixIsPrinted` | lib/backup_prune_pure.cpp:76-110 | an accepted suffix prints back to itself if and only if its fields are an existing date |
| `Calendar.SuffixAliases` | lib/backup_prune_pure.cpp:76-110 | in every common year 29 February and 1 March are two accepted suffixes of one moment |
| `Calendar.SuffixAcceptedIff` | lib/backup_prune_pure.cpp:76-110 | a text is accepted exactly when it spells fields within the bounds, day up to 31 and second up to 60, other than the first moment of 1970, and then stands for their plain count |
| `StreamName.ValidateJailName` | lib/backup_pure.cpp:74-88 | the character loop accepts exactly 1 to 128 letters, digits, dots, underscores and dashes, given by their ASCII codes, other than a dot or two |
| `StreamName.NameRoundTrip` | lib/backup_prune_pure.cpp:112-190 | a printed stream name parses to the same jail, suffix and base, or is refused, the latter exactly when the jail name with its dash contains ".inc-from-" |
| `StreamName.ReprintedName` | lib/backup_prune_pure.cpp:112-190 | a parsed name prints back to itself exactly when it does not end in an empty ".inc-from-" |
| `StreamName.FilenameText` | lib/backup_pure.cpp:35-41 | how a full and an incremental stream are spelled |
| `StreamName.ParsedParts` | lib/backup_prune_pure.cpp:112-190 | whatever name is accepted, its jail is 1 to 128 name characters and its suffix and base are accepted moments |
| `Retention.DistinctEpochsDecide` | lib/backup_prune_pure.cpp:212-227 | with one full per jail and moment, the kept fulls are exactly those newest in their bucket with fewer than N buckets among the newer ones, for some bucket type |
| `Retention.TiesKeepEpochs` | lib/backup_prune_pure.cpp:254-257 | however the sort breaks ties, the kept fulls are of the same jails and moments |
| `Retention.KeptHasChain` | lib/backup_prune_pure.cpp:291-308 | a kept incremental starts a finite chain of kept streams of its jail that ends on a kept full, with no assumption on dates |
| `Retention.FixpointIff` | lib/backup_prune_pure.cpp:291-308 | the kept incrementals satisfy "kept if and only if the base is kept" exactly when everything built on a kept incremental is on a kept full or on a kept incremental that is walked before it |
| `Retention.FixpointIffBefore` | lib/backup_prune_pure.cpp:291-308 | with one incremental per jail and suffix: exactly when each kept base is walked before what is built on it, unless that is on a kept full |
| `Retention.NoneStrandedIff` | lib/backup_prune_pure.h:97-101 | of a run's lists: no incremental with a kept base is left out of the keep list, under exactly the same condition |
| `Retention.KeptIsFixpoint` | lib/backup_prune_pure.cpp:291-308 | so the rule holds when bases come first, by date and then name |
| `Retention.KeptIsLeast` | lib/backup_prune_pure.cpp:291-308 | they are contained in every set that satisfies it |
| `Retention.NewerBaseIsMissed` | lib/backup_prune_pure.cpp:288-290 | a witness: an incremental dated before its base is lost by the single pass |
| `Retention.FullsPerJail` | lib/backup_prune_pure.cpp:327-343 | the policy on the whole directory is the policy on each jail's files |
| `Retention.KeptPerJail` | lib/backup_prune_pure.cpp:327-343 | whether a stream is kept depends on its own jail's streams alone |
| `Retention.FullsStay` | lib/backup_prune_pure.cpp:212-227 | on what a run leaves, the same policy keeps exactly the same fulls, for any bucket functions |
| `Retention.SecondRunRemovesNothing` | lib/backup_prune_pure.cpp:234-318 | deciding again on the survivors, with the same rules and flag, removes none of them |
| `Buckets.InMonthIff` | lib/backup_prune_pure.cpp:196-205 | a moment lies between the counted first second of a month and that of the next exactly when its broken-down year and month are those |
| `Buckets.MonthBucketIff` | lib/backup_prune_pure.cpp:196-205 | two moments share the month bucket if and only if some year and month has both between its counted first second and that of the next month |
| `Buckets.SpanBucketsIff` | lib/backup_prune_pure.cpp:192-194 | two moments share the hour, day or week bucket if and only if both lie in one span of 3600, 86400 or 604800 seconds counted from 1970 |
| `Buckets.BucketsGrow` | lib/backup_prune_pure.cpp:192-205 | all four buckets are monotone in time |
| `Buckets.PolicyKeeps` | lib/backup_prune_pure.cpp:327-343 | what the policy keeps, without bucket numbers: the newest full of each of the N newest hours, days, weeks and calendar months that have one |
| `Prune.BucketKeep` | lib/backup_prune_pure.cpp:212-227 | the greedy loop keeps the positions whose bucket is new among fewer than N earlier ones |
| `Prune.KeptAtIsChosen` | lib/backup_prune_pure.cpp:212-227 | in any newest-first order such a position is the first of its moment and that moment is chosen by the policy, and conversely |
| `Prune.OrderKeepsFulls` | lib/backup_prune_pure.cpp:254-267 | any newest-first order, ties included, keeps fulls as the policy says |
| `Prune.PassKeepsIffChain` | lib/backup_prune_pure.cpp:291-308 | the oldest-first pass keeps an incremental if and only if it has a chain back in time to a kept full |
| `PruneWalk.Partition` | lib/backup_prune_pure.cpp:239-253 | the three index lists hold each file once, by kind |
| `PruneWalk.OrderStreams` | lib/backup_prune_pure.cpp:239-296 | the sorted lists still partition the files; fulls newest first, incrementals oldest first by date then name |
| `PruneWalk.KeepFulls` | lib/backup_prune_pure.cpp:260-267 | the union over the bucket types is the set of indices some type keeps |
| `PruneWalk.WalkIncs` | lib/backup_prune_pure.cpp:297-308 | names of the kept and the lost incrementals in order, where a kept one becomes a base for later ones |
| `PruneWalk.WalkPartitions` | lib/backup_prune_pure.cpp:275-316 | the walk's three lists together name every file exactly as often as it occurs |
| `PruneWalk.WalkDecides` | lib/backup_prune_pure.cpp:275-316 | with distinct names the lists are what the policy says of each file |
| `PruneWalk.DecidePruneOneJail` | lib/backup_prune_pure.cpp:234-318 | one jail: conservation of names, and the decision of the policy |
| `PruneAll.GroupByJail` | lib/backup_prune_pure.cpp:330-331 | the map holds each jail's files in input order and no other |
| `PruneAll.DecideByRules` | lib/backup_prune_pure.cpp:327-343 | for any bucket types: three sorted lists that together name every file once, and in a directory decide as the policy says |
| `PruneAll.DecidePrune` | lib/backup_prune_pure.cpp:327-343 | the same for the four counts of a policy, and by the calendar: a full moment is kept exactly when it is the newest of one of the newest hours, days, weeks or months its own count asks for |
| `PruneAll.PruningTwice` | lib/backup_prune_pure.cpp:327-343 | a second decision on the files a first one left has an empty remove list, for either flag |
| `PruneAll.ExplainRule` | lib/backup_prune_pure.cpp:366-383 | one bucket type over all jails at once names the positions it keeps, each with its rank |
| `PruneAll.ExplainKeeps` | lib/backup_prune_pure.cpp:345-385 | the files named are kept fulls as the policy says, and those named under one bucket type are what that type alone keeps; each is ranked by the newer buckets of its own jail |
| `PruneAll.ExplainedAreKept` | lib/backup_prune_pure.cpp:345-385 | with one full per jail and moment, the explained fulls are exactly the fulls in the keep list |
| `WsFrame.XorInverse` | daemon/ws_pure.cpp:283-287 | masking a byte twice with one key byte gives it back |
| `WsFrame.ParseFrameBytes` | daemon/ws_pure.cpp:232-289 | the byte loops compute the frame grammar of section 5.2 of RFC 6455 with crate's limits, which the rows of `FrameSamples` pin down |
| `WsFrame.EncodeFrameBytes` | daemon/ws_pure.cpp:291-325 | the appending loops produce the encoding, short keys padded and long ones cut |
| `WsFrame.FrameRoundTrip` | daemon/ws_pure.cpp:232-325 | parsing an encoded frame with anything behind it returns opcode, payload and mask bit and consumes exactly its length, or is an error exactly when the payload exceeds 125 bytes (control) or 1 MiB (data) |
| `WsFrame.PrefixNeedsMore` | daemon/ws_pure.cpp:232-289 | every proper prefix of an encoded frame asks for more |
| `WsFrame.VerdictStands` | daemon/ws_pure.cpp:232-289 | once a frame or an error is reported, further bytes do not change it |
| `WsFrame.IncompleteIsBounded` | daemon/ws_pure.cpp:232-289 | a buffer that asks for more is shorter than 1 MiB and 14 bytes |
| `WsFrame.FrameAlone` | daemon/ws_pure.cpp:232-289 | a frame is reported from its own bytes alone |
| `FrameSamples.XorByteBit` | daemon/ws_pure.cpp:283-287 | bit i of the masked byte is 1 if and only if the bits of byte and key differ |
| `FrameSamples.FrameFields` | daemon/ws_pure.cpp:232-265 | of any bytes that parse: opcode, final and mask bit come from the first two bytes, the length from one, two or eight bytes with the most significant first, and as many bytes are consumed |
| `FrameSamples.PayloadUnmasked` | daemon/ws_pure.cpp:270-289 | of any bytes that parse: payload byte k and its wire byte differ exactly in the bits of key byte k mod 4, and are equal without a key |
| `FrameSamples.RefusedIff` | daemon/ws_pure.cpp:242-268 | refused exactly for the ten reserved opcodes, a fragmented or long control frame, or more than 1 MiB declared |
| `FrameSamples.EncodedWire` | daemon/ws_pure.cpp:291-318 | an encoded frame starts with the final bit and its opcode and carries the given key, filled up with zeros, in front of its body |
| `FrameSamples.SingleText` | daemon/ws_pure.cpp:232-325 | section 5.7: the unmasked "Hello", parsed and encoded |
| `FrameSamples.MaskedHello` | daemon/ws_pure.cpp:232-325 | section 5.7: the masked "Hello" and the masked pong, parsed and encoded |
| `FrameSamples.FragmentedText` | daemon/ws_pure.cpp:232-289 | section 5.7: the two fragments of "Hello" |
| `FrameSamples.UnmaskedPing` | daemon/ws_pure.cpp:232-325 | section 5.7: the ping, parsed and encoded |
| `FrameSamples.Binary256` | daemon/ws_pure.cpp:254-257 | section 5.7: any 256 bytes behind a two-byte length |
| `FrameSamples.Binary64K` | daemon/ws_pure.cpp:258-264 | section 5.7: any 65536 bytes behind an eight-byte length |
| `WsPump.DrainExtends` | daemon/ws_console.cpp:193-198 | draining a stream in two parts, carrying the rest over, is draining it at once |
| `WsPump.DrainEncoded` | daemon/ws_console.cpp:193-198 | an encoded frame in front of a stream is the first frame drained from it |
| `WsPump.Pump.OnReadable` | daemon/ws_console.cpp:188-216 | one readable event appends, drains and handles as the session step says, with the reply and PTY bytes the next rows describe |
| `WsPump.PtyTakesData` | daemon/ws_console.cpp:209-213 | the payloads of frames with opcodes 0, 1 and 2 reach the PTY, in order, and nothing else |
| `WsPump.SessionAnswers` | daemon/ws_console.cpp:203-205 | over any reads, a client that parses what was sent back reads exactly one pong for each ping handled, with its payload, in order |
| `WsPump.Pump.Run` | daemon/ws_console.cpp:173-216 | the loop over reads computes the session over all of them |
| `WsPump.ChunksImmaterial` | daemon/ws_console.cpp:173-216 | for every split into reads the frames handled up to the first Close or error, and whether the session closed, are those of the whole stream; an open session's leftover is below 1 MiB and 14 bytes |
| `WsPump.SplitsAgree` | daemon/ws_console.cpp:173-216 | two splits of one stream agree on both |
| `WsPump.SplitImmaterialIff` | daemon/ws_console.cpp:173-216 | all splits of a stream lead to the same handled frames if and only if no frame follows its first Close |
| `WsPump.HandledIsPrefix` | daemon/ws_console.cpp:193-216 | under every split the handled frames are the first frames of the whole stream |
| `WsPump.CutAfter` | daemon/ws_console.cpp:193-198 | a stream can be cut behind any of its frames, leaving nothing over |
| `WsPump.ReadAfterCloseIsHandled` | daemon/ws_console.cpp:199-202 | a witness of the dependence: a Text frame behind a Close in the same read is handled, in a later read it is not |
| `Sha1Hash.Sha1Block` | daemon/ws_pure.cpp:22-43 | the in-place block step is the compression of RFC 3174 on the operators of the next rows |
| `Sha1Hash.AndOrXorBits` | daemon/ws_pure.cpp:22-43 | and, or and exclusive or work bit by bit |
| `Sha1Hash.NotBits` | daemon/ws_pure.cpp:36 | complement flips every bit |
| `Sha1Hash.RotlBit` | daemon/ws_pure.cpp:18-20 | bit (i + n) mod 32 of the rotation is bit i of the word |
| `Sha1Hash.MixBit` | daemon/ws_pure.cpp:36-39 | the round function selects, is the parity or is the majority, bit by bit |
| `Sha1Hash.RoundConstantIsRoot` | daemon/ws_pure.cpp:36-39 | the constants are the whole parts of 2^30 times the square roots of 2, 3, 5 and 10 |
| `WordVectors.BvOps` | daemon/ws_pure.cpp:22-43 | the three binary operators are those of 32-bit vectors |
| `WordVectors.BvAdd` | daemon/ws_pure.cpp:40 | the sum is that of 32-bit vectors |
| `WordVectors.BvInjective` | daemon/ws_pure.cpp:22-43 | a word is determined by its vector |
| `Sha1Hash.FinalBlocks` | daemon/ws_pure.cpp:58-71 | the one or two last blocks built in the buffer are the padding of section 4 of RFC 3174 |
| `Sha1Hash.Sha1Raw` | daemon/ws_pure.cpp:47-81 | the digest is the compression folded over the padded message, for every length |
| `Base64Text.Base64Encode` | daemon/ws_pure.cpp:87-116 | the loop and its tail produce the encoding of section 4 of RFC 4648 |
| `Base64Text.Base64Length` | daemon/ws_pure.cpp:87-116 | the encoding has 4 times ceil(n/3) characters |
| `Base64Text.Base64RoundTrip` | daemon/ws_pure.cpp:87-116 | the decoder is its left inverse |
| `Handshake.ComputeAcceptKey` | daemon/ws_pure.cpp:122-125 | the accept key is the Base64 of the SHA-1 of key and GUID, 28 characters that decode to the digest |
| `AcceptSample.GuidText` | daemon/ws_pure.cpp:123 | the bytes of the GUID are its text |
| `AcceptSample.SampleDigest` | daemon/ws_pure.cpp:47-81 | the digest of the sample key and the GUID, over two blocks and 160 rounds |
| `AcceptSample.SampleAccepted` | daemon/ws_pure.cpp:122-125 | section 1.3 of RFC 6455: the key "dGhlIHNhbXBsZSBub25jZQ==" is answered by "s3pPLMBiTxaQ9kYGzzhZRbK+xOo=" |
| `Scheduling.PickLeastLoaded` | hub/scheduling_pure.cpp:22-115 | nobody without a reachable node; a hinted reachable node of count c is kept if and only if 10 c is at most 11 times the least count; otherwise the first by name of the least loaded; runner-up and confidence whichever way ties sort |
| `Scheduling.WithinTenPercent` | hub/scheduling_pure.cpp:62-66 | a count is within tolerance exactly when ten times it is at most eleven times the least |
| `Scheduling.ConfidenceMeans` | hub/scheduling_pure.cpp:87-108 | confidence is 100 for a sole node, 50 between empty ones, else the whole per cent of the spread against the runner-up, so 0 on a tie |
| `Scheduling.MigratesWhen` | hub/scheduling_pure.cpp:57-85 | a migration leads from a node above the tolerance to a least loaded one |
| `Scheduling.MoveGoesDown` | hub/scheduling_pure.cpp:39-85 | from ten containers up each move has source count at least target count plus 2, lowers the sum of squares by at least 2 and keeps every lower bound on the counts |
| `Scheduling.SteepOrFlat` | hub/scheduling_pure.cpp:57-85 | in any cluster a move goes down by two or more and lowers the sum of squares by at least 2, or it goes from m + 1 to m containers with m below ten and keeps the sum |
| `Scheduling.RunsEnd` | hub/scheduling_pure.cpp:39-85 | along every run in any cluster twice the number of steep moves plus the sum of squares never exceeds the initial sum, every other move is flat, and the least count never drops |
| `Scheduling.AllSteep` | hub/scheduling_pure.cpp:39-85 | with ten containers everywhere all moves of a run are steep |
| `Scheduling.RunLengthBounded` | hub/scheduling_pure.cpp:39-85 | so every such run is finite, of at most half the initial sum of squares moves |
| `Scheduling.SettlesIff` | hub/scheduling_pure.cpp:57-85 | a moved container is told to stay if asked again at once exactly when the target had ten containers, or the move went down by two and no other node was as light |
| `Scheduling.MovedStays` | hub/scheduling_pure.cpp:57-85 | so with ten everywhere it stays |
| `Scheduling.FlatAgain` | hub/scheduling_pure.cpp:57-85 | after a flat move the container that moved can be moved flat again |
| `Scheduling.BoundedIff` | hub/scheduling_pure.cpp:39-85 | the runs from a cluster have a common bound on their length if and only if none of them makes a flat move |
| `Scheduling.PingPong` | hub/scheduling_pure.cpp:57-85 | a witness: below ten two nodes can exchange a container for ever |
| `Failover.PollRecords` | hub/poller.cpp:120-207 | a poll keeps "down since" equal to the first failure of the current streak, also between its two locked sections |
| `Failover.ListAfterPoll` | hub/poller.cpp:172-207 | a list replaces the previous one and a poll without one keeps it; it is stale exactly when the poll brought none or failed |
| `Failover.ListIsLatest` | hub/poller.cpp:172-207 | over any polls the list is the last one that was brought |
| `Failover.Poller.PollNode` | hub/poller.cpp:120-207 | the poll's writes to the status, with an exception at any point of it, and the invariant over all nodes' histories |
| `Failover.Poller.GetNodeStatuses` | hub/poller.cpp:210-213 | the snapshot records every node's history |
| `Failover.StreakIsFirst` | hub/poller.cpp:158-170 | the recorded time is that of a failure preceded by a success or nothing and followed by failures only |
| `Failover.StreakReachesBack` | hub/poller.cpp:158-170 | under a nondecreasing clock it is at most t exactly when every probe since t failed and one failed by t |
| `Failover.EvaluateFailoverOrders` | hub/ha_pure.cpp:42-76 | the nested loops produce one order per container that has one, in order |
| `Failover.OrdersComeFromSpecs` | hub/ha_pure.cpp:42-76 | an order is emitted exactly when it is the order of some spec |
| `Failover.ValidateSpecs` | hub/ha_pure.cpp:98-118 | accepted exactly when every name is 1 to 128 name characters, by ASCII code, and the partners are there, distinct and not the primary |
| `Failover.OrderWhen` | hub/api.cpp:172-185 | for any threshold an order exists if and only if a partner's last poll succeeded and the primary failed every poll for at least the threshold, or was never polled while the threshold is not positive; it goes to the first such partner, never to the primary |
| `Failover.OrderIff` | hub/ha_pure.cpp:42-76 | "ordered if and only if the primary was down for the threshold and a partner is up" holds exactly when the threshold is positive, the primary is unknown or was polled, or no partner is up |
| `Failover.ZeroThresholdFires` | hub/ha_pure.cpp:48-52 | a witness: with threshold zero a never polled primary is failed over |
| `Aggregator.CountObjects` | hub/aggregator_pure.cpp:34-71 | the scanning loop computes the count that the next two rows are about |
| `Aggregator.CountOfArray` | hub/aggregator_pure.cpp:34-71 | for any array text of sections 2, 4, 5 and 7 of RFC 8259 it is the number of outermost objects, whatever strings contain |
| `Aggregator.CountOfObjectArray` | hub/aggregator_pure.cpp:34-71 | an array of objects is counted exactly |
| `Aggregator.StrayBrace` | hub/aggregator_pure.cpp:62-66 | a closing brace that closes nothing does not change the count |
| `Aggregator.FindArrayEnd` | hub/aggregator_pure.cpp:79-90 | the loop finds the end that the next row is about |
| `Aggregator.ArrayCloses` | hub/aggregator_pure.cpp:79-90 | for a printed array with anything behind it that end is the array's own |
| `Aggregator.ExtractArray` | hub/aggregator_pure.cpp:113-137 | the search loops compute the extraction that the next rows are about |
| `Aggregator.ExtractedIsArray` | hub/aggregator_pure.cpp:113-137 | on every input the result is one bracketed array from end to end |
| `Aggregator.ExtractIdempotent` | hub/aggregator_pure.cpp:113-137 | on every input extracting twice is extracting once |
| `Envelope.ArrayExtracts` | hub/aggregator_pure.cpp:113-120 | a bare array, with whitespace before and anything behind, comes back as printed |
| `Envelope.DataArrayExtracts` | hub/aggregator_pure.cpp:121-128 | so does an array under the first "data" |
| `Envelope.EnvelopeExtracts` | hub/aggregator_pure.cpp:121-137 | so does the jail list under "data" and "jail-information", with its own whitespace in each of the eight gaps and any members before the keys |
| `Envelope.BareExtracts` | hub/aggregator_pure.cpp:121-137 | the result without an enclosing "data": the array that text leads to, if any; else the jail list as printed, unless the text leads past the key, and then "[]" |
| `Envelope.JailNamedDataIsLost` | hub/aggregator_pure.cpp:121-137 | a witness: such a body with a jail called "data" gives "[]" |
| `Envelope.DataStringHidesList` | hub/aggregator_pure.cpp:121-137 | a witness: a string "data" in front of an array gives that array, whatever follows |
| `Envelope.CratedEnvelopeExtracts` | daemon/routes.cpp:118-120 | from crated's prefix around jls output in any spacing and with any version number the jail list comes back as printed and is counted exactly |
| `AutoFw.IdsAreDistinct` | lib/auto_fw_pure.cpp:134-151 | for jids 1 to 9999 two ids coincide exactly when kind and jid do, and all fit 16 bits |
| `AutoFw.IdsDecode` | lib/auto_fw_pure.cpp:134-151 | the sweeps' arithmetic gives every id's jid back |
| `AutoFw.NextJidCollides` | lib/auto_fw_pure.cpp:153-159 | the bound is exact |
| `AutoFw.AcceptedIff` | lib/auto_fw_pure.cpp:153-159 | a jid is accepted exactly when it is positive and its NAT instance stays below the rules |
| `AutoFw.PickOrphanRules` | lib/auto_fw_pure.cpp:262-279 | the line loop of both rule sweeps selects as the specification of a sweep says |
| `AutoFw.PickOrphanNatIds` | lib/auto_fw_pure.cpp:379-413 | the same for NAT instances |
| `AutoFw.SweepSelects` | lib/auto_fw_pure.cpp:262-279 | on a printed listing a sweep selects, in order, exactly the listed ids in its block that belong to no running jail |
| `AutoFw.RulesRead` | lib/auto_fw_pure.cpp:244-258 | every rule line `ipfw list` can print gives its number back |
| `AutoFw.NatsRead` | lib/auto_fw_pure.cpp:391-407 | every line `ipfw nat list` can print gives its number back |
| `AutoFw.SweepByJail` | lib/auto_fw_pure.cpp:262-279 | both rules of a listed jail are swept when it is not running, neither when it is |
| `AutoFw.NatSweepByJail` | lib/auto_fw_pure.cpp:379-413 | the same for its NAT instance |
| `AutoFw.RulesSweptIff` | lib/auto_fw_pure.cpp:262-279 | swept exactly: the listed numbers 40000 + 2 jid and 40001 + 2 jid of jids 0 to 9999 that are not running |
| `AutoFw.ThrottlesSweptIff` | lib/auto_fw_pure.cpp:360-377 | swept exactly: the listed numbers 20000 + 2 jid and 20001 + 2 jid of jids 0 to 4999 that are not running |
| `AutoFw.NatsSweptIff` | lib/auto_fw_pure.cpp:379-413 | swept exactly: the listed instances 30000 + jid of jids 0 to 9999 that are not running |
| `AutoFw.DefaultRuleStays` | lib/auto_fw_pure.cpp:262-279 | rule 65535 is never swept |
| `AutoFw.OnlyInstances` | lib/auto_fw_pure.cpp:391-407 | no line is read as an instance unless its first fields are "ipfw" and "nat" |
| `AutoFw.SecondSweepEmpty` | lib/auto_fw_pure.cpp:262-279 | after deleting what was swept, sweeping the new listing finds nothing |
| `AutoFw.SpaceCodes` | lib/auto_fw_pure.cpp:391-407 | the fields of an instance line are separated by the characters 9 to 13 and 32 |
| `Lines.CrDropped` | lib/auto_fw_pure.cpp:365-368 | of a listing's line exactly one carriage return at the end is dropped |
| `RdrRules.ParseRdrHostPorts` | lib/auto_fw_pure.cpp:306-350 | the line loop reads the lines as the next rows describe |
| `RdrRules.RuleRoundTrip` | lib/auto_fw_pure.cpp:79-110 | a printed rule, with or without the "= " of pfctl, is read as its protocol and host range in order, except exactly when its interface is named "port" |
| `RdrRules.RuleWordsAre` | lib/auto_fw_pure.cpp:88-101 | the words of a printed rule |
| `RdrRules.PrintedRulesRead` | lib/auto_fw_pure.cpp:306-350 | so is every list of valid rules, in order |
| `RdrRules.ClashIsOverlap` | lib/auto_fw_pure.cpp:352-358 | the overlap test holds exactly when some port lies in both ranges |
| `RdrRules.RdrHostPortTaken` | lib/auto_fw_pure.cpp:352-358 | true exactly when some listed range passes the test, ends in either order |
| `RdrRules.TakenOnPrinted` | lib/auto_fw_pure.cpp:306-358 | on printed rules the search says taken exactly when a same-protocol rule, on an interface not named "port", shares a port with the request |
| `RdrRules.NamedPortHidesRule` | lib/auto_fw_pure.cpp:324-343 | such a rule exists, takes its port and is not seen |
| `HttpHead.ParseHttpHead` | daemon/control_socket_pure.cpp:446-548 | the index scan, with every error case in its order |
| `HttpHead.RequestIff` | daemon/control_socket_pure.cpp:454-487 | a request line is accepted exactly when it is one to 16 letters, a slash and up to 1023 more visible ASCII characters, and "HTTP/1.0" or "HTTP/1.1", joined by single spaces |
| `HttpHead.TooLongIff` | daemon/control_socket_pure.cpp:455-458 | a request line over 1056 and a header line over 4096 characters are refused as too long, no other |
| `HttpHead.LengthIff` | daemon/control_socket_pure.cpp:521-541 | a Content-Length value is accepted exactly when it is digits of value at most 65536, and is that value |
| `HttpHead.WrongHeaders` | daemon/control_socket_pure.cpp:508-541 | a header without a colon and an empty, a non-numeric or a too large length are wrong, each with its own error |
| `HttpHead.FoldedIff` | daemon/control_socket_pure.cpp:418-423 | a name folds to a name without capitals exactly when they agree letter by letter up to case |
| `HttpHead.ContentLengthDeclares` | daemon/control_socket_pure.cpp:508-541 | a header named "content-length" in any case, then a colon, blanks and a decimal n, declares n up to 65536 and is refused above |
| `HttpHead.OtherNameIgnored` | daemon/control_socket_pure.cpp:508-544 | a header of any other name declares nothing, whatever its value |
| `HttpHead.HeaderReads` | daemon/control_socket_pure.cpp:504-541 | a header line counts only through its name and its value behind the blanks |
| `HttpHead.ScanIsDeclared` | daemon/control_socket_pure.cpp:446-548 | on a block of lines the scan judges the request line, then the first wrong header, then takes the last Content-Length |
| `HttpHead.BlockEnds` | daemon/control_socket.cpp:478-480 | a block of lines runs up to the first empty line, whatever follows it |
| `HttpHead.EveryHeadIsBlock` | daemon/control_socket.cpp:478-482 | conversely every text cut at its first empty line is such a block |
| `HttpHead.StructuralErrorsUnreachable` | daemon/control_socket_pure.cpp:493-548 | on such a head "no CRLF", "not terminated" and "truncated" cannot occur |
| `HttpHead.BodyIsCapped` | daemon/control_socket_pure.cpp:521-541 | an accepted head declares at most 65536 bytes |
| `ControlSocket.Conn.ReadHead` | daemon/control_socket.cpp:114-128 | the read loop stops as the specification of the reads says, holding exactly the bytes taken |
| `ControlSocket.Conn.ReadExact` | daemon/control_socket.cpp:132-145 | it returns exactly the next bytes, and is bad exactly when the stream has fewer |
| `ControlSocket.Conn.Receive` | daemon/control_socket.cpp:465-506 | head, carried bytes and body are assembled into the outcome of the stream under the given reads |
| `ControlSocket.EverySplitServes` | daemon/control_socket.cpp:465-506 | a head that ends within 8192 bytes: for every split the outcome is that of the whole stream, the body exactly the Content-Length bytes behind the head, at most 65536 |
| `ControlSocket.SplitsDisagree` | daemon/control_socket.cpp:121-127 | a head that ends in bytes 8193 to 9215 is refused under one split and served under another |
| `ControlSocket.SplitImmaterialIff` | daemon/control_socket.cpp:114-128 | the outcome is the same for all splits exactly when the head does not end there |
| `ControlSocket.RequestDelivered` | daemon/control_socket.cpp:465-506 | a request that carries "Content-Length: n" with n the length of its body, at most 65536, among any other headers reaches the dispatcher with its method, path and body, whatever the split and whatever follows |
| `ControlSocket.BodilessDelivered` | daemon/control_socket.cpp:465-506 | a request without such a header is dispatched with an empty body, whatever follows its head |
| `ControlSocket.RequestServed` | daemon/control_socket.cpp:465-506 | in general: a request whose headers declare the length of its body is dispatched as written |
| `RateLimit.Limiter.Check` | daemon/rate_limit.cpp:19-25 | the keyed step on the map |
| `RateLimit.RunCounts` | daemon/rate_limit_pure.cpp:7-38 | at every point of a run under any clock: without a return to a second its grants and the counter are the capped requests; after one, at least cap + 1 of more than cap requests are granted |
| `RateLimit.BucketCounts` | daemon/rate_limit_pure.cpp:7-38 | while a key's clock does not step back its bucket holds the capped number of requests of its second |
| `RateLimit.GrantedIsCappedIff` | daemon/rate_limit_pure.cpp:7-38 | over every interleaving and any clock, the requests of a key allowed in a second number min(requests, cap) if and only if they are consecutive among the key's requests or at most the cap |
| `RateLimit.GrantedIsCapped` | daemon/rate_limit_pure.cpp:7-38 | so they do whenever that key's own clock does not step back |
| `RateLimit.UncappedAllows` | daemon/rate_limit_pure.cpp:9-16 | with a cap of zero or less every request is allowed |
| `RateLimit.KeysDoNotInterfere` | daemon/rate_limit.cpp:19-25 | every request is answered as in the run of its key alone |
| `RateLimit.ClockBackGrantsMore` | daemon/rate_limit_pure.cpp:18-23 | a witness: a clock stepping back lets a second exceed its cap |
| `DevfsClaims.Registry.RulesetOwner` | daemon/privops_handlers.cpp:1114-1129 | the lookup's answer, and that it drops a claim whose mount is gone and nothing else |
| `DevfsClaims.Registry.ClaimRuleset` | daemon/privops_handlers.cpp:1134-1143 | granted unless another user's claim is live; a refusal changes nothing |
| `DevfsClaims.OwnerIsHolder` | daemon/privops_handlers.cpp:1114-1129 | from a grant to the next, until a look finds the mount gone: a lookup answers the holder's uid while the mount is live and nobody when it is not |
| `DevfsClaims.UnclaimedOwner` | daemon/privops_handlers.cpp:1114-1129 | a ruleset never granted is free when empty and root's otherwise |
| `DevfsClaims.DroppedOwner` | daemon/privops_handlers.cpp:1114-1129 | so is one whose claim a lookup dropped, until the next grant |
| `DevfsClaims.LiveIff` | daemon/privops_handlers.cpp:1114-1143 | in every run a path is live exactly when it was mounted, or live at the start, and not unmounted since |
| `DevfsClaims.ClaimHolds` | daemon/privops_handlers.cpp:1114-1143 | in every interleaving a granted claim stays until the next grant or until its mount is seen gone |
| `DevfsClaims.TakeoverSawDeadMount` | daemon/privops_handlers.cpp:1688-1701 | two consecutive grants to different users, the second not forced: the first one's mount was seen not live in between |
| `DevfsClaims.TakeoverIff` | daemon/privops_handlers.cpp:1114-1143 | after a grant, the next unforced claim by another user is granted if and only if the first one's mount is seen not live in between or at that claim |
| `DevfsClaims.LiveClaimIsSafe` | daemon/privops_handlers.cpp:1688-1701 | a claim whose mount stays live is not taken over unforced |
| `DevfsClaims.RaceIff` | daemon/privops_handlers.cpp:1131-1143 | of two users who both looked up a free ruleset, the second claimant is granted it too if and only if the path in the first one's request is not a live mount |

## Left out

- Sockets, threads, PTY, jail, ZFS, mount and `devfs` calls, sqlite, TLS, YAML: foreign I/O; only the bytes and states they produce appear.
- Error and rationale texts, JSON rendering of fixed records, metrics, configuration, argument parsing: easy members only.
- Integer widths: epochs, counts and lengths are unbounded, so overflow of container counts in `pickLeastLoaded` and of jids outside the accepted range beyond 32-bit wrap of the ids is not modelled.
- `std::sort` is modelled as some sorted permutation; no particular algorithm. `std::map` visits jails in name order, the model in any order; the lists are sorted afterwards.
- Calendar.SuffixRoundTrip: moments before 1970 or after the year 9999 are outside it; the parser accepts neither.
- Failover.Poller.PollNode: requires a positive clock that does not step back; what a reader can see between the two locked sections is covered by `Failover.PollRecords`, not by interleaving two threads.
- RateLimit.GrantedIsCapped: for a positive cap that stays the same for a key; for the others see `RateLimit.UncappedAllows`.
- Scheduling.RunsEnd: reachability and names stay fixed along a run, and one container moves at a time.
- Envelope.BareExtracts: where the text "data" leads past the key, the key "jail-information" does not occur again behind that point.
- WsPump.ChunksImmaterial: speaks of frames up to the first Close or error, because behind a Close the split matters.
- WsPump: the direction from the PTY to the socket, and the length of one read (at most 2048 bytes), since any split is covered.
- DevfsClaims: the authorization gate is an arbitrary decision between lookup and claim; other verbs and registries are not modelled.
- ControlSocket: peer credentials, routing, authorization and the response after the request is assembled; a read error is an end of stream.
- `lib/backup_pure.cpp` `parseRetention`, the handshake request parser, `parseCrateAnchorJailNames`, `splitHostPort`: short parsers that would only add easy members.
