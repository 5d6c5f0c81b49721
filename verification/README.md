# Verified models of ocserv's algorithms and main process

ocserv is a VPN server. This project models the parts of it that are hardest to get right and proves what
they are for:

- **LZS compression** (`src/lzs.c`, the token format of section 3.5 of RFC 3943): bit packing, the token
  format, the decompressor, the hash-and-ring match search and the compressor, up to the round trip of the
  two programs and the size bound.
- **Two-Way substring search** (`gl/str-two-way.h`, `gl/memmem.c`, `gl/strcasestr.c`) and word-at-a-time
  `gl/memchr.c`: the critical factorization theorem, both searches with their memory and shift table, and
  that each finds the first occurrence.
- **The ban database** (`src/main-ban.c`): its timed scores, told from the events alone, and that cleaning
  it up can never be noticed.
- **IP leases** (`src/ip-lease.c`, `src/ip-util.c`), **configurations across reloads** (`src/config.c`) and
  **session admission** (`src/main-worker-cmd.c`, `src/main-auth.c`, `src/main-proc.c`): one state machine of
  the main process, in which leases, usage counts and replies depend on each other, and what holds after
  every run of it.
- **URL escaping** (`src/html.c`).

Code that works in place is modelled by methods over arrays or by classes whose methods update fields; each
is proved equal to a specification function, and the properties are lemmas about those functions. What the
program takes from outside (the clock, random bytes, SHA-1, pings, the answers of the security module, whether
a message or a device call goes through) is a parameter or a part of an event, and every statement holds for
all of its values.

| files | content |
|---|---|
| `LzsBits`, `LzsFormat`, `LzsDecoder`, `LzsGreedy`, `LzsSearch`, `LzsEncoder`, `LzsExact`, `LzsRoundTrip` | compression |
| `Words`, `CriticalFactorization`, `MaximalSuffix`, `TwoWay`, `TwoWaySearch`, `Memchr`, `Substring` | searching |
| `BanDb` | bans |
| `IpPool`, `LeaseBook`, `ConfigStore`, `MainProcess`, `Admission`, `MainServer` | the main process |
| `UrlEscape`, `Options` | URL escaping; the option type |

## Where the code does not do what one would expect

- A ban can outlive its expiry: a check that itself opens a new scoring window turns the address away again
  when the points of one connection reach the limit (`BanDb.AdmittedAfterExpiry` says exactly when,
  `BanDb.TurnedAwayAgain` shows a run).
- A ban can end before its expiry (`BanDb.BannedBeforeExpiry` says exactly when): the score starts again as soon
  as its window is over, so with the times of `doc/sample.config` an address banned late in its window is let in
  early (`BanDb.WindowEndsBan` shows a run); and scores are 32-bit and wrap (`BanDb.ScoreWraps` shows a run).
- The server's own IPv6 address stays out of the leased subnets exactly when these are smaller than the network
  and larger than one address, or nothing can be leased at all (`IpPool.LocalKeptOutExactly`). With /128
  subnets, the default of `src/config.c:507`, it can itself be leased (`IpPool.LocalLeased`).
- IPv6 leases of different subnet prefixes can overlap, as only signatures are compared: exactly when the smaller
  subnet starts inside the larger one (`LeaseBook.BlocksOverlapExactly`, `LeaseBook.BlocksOverlap`).
- The ping meant for single IPv6 addresses is never sent, since the test in front of it reads the prefix of the
  lease before it is set (`src/ip-lease.c:465`).
- Stealing leases loses track of a pool lease the thief already has (`LeaseBook.StealKeeps`); the state gate on
  cookie requests is what rules that out (`MainProcess.LeasesOfEveryRun`).
- Where `char` is signed, URL escaping turns every byte from 0x80 to 0xfe into `%FF` (`UrlEscape.RoundTrip`).

## Model

| member | source | states |
|---|---|---|
| LzsRoundTrip.RoundTrip | src/lzs.c:69-333 | for every input of at most 65536 bytes, decompressing the bytes the compressor writes gives back exactly the input and its length, and leaves the rest of the output buffer as it was |
| LzsRoundTrip.ThereAndBack | src/lzs.c:69-333 | the two programs called one after the other: with (9n + 16) / 8 bytes in between and n bytes at the end, the input comes back, and nothing behind it is touched |
| LzsRoundTrip.SizeBound | src/lzs.c:264-330 | the output for n bytes has at most (9n + 16) / 8 bytes, so with Compress a buffer of that size is never reported too small |
| LzsRoundTrip.NextTokenIsBest | src/lzs.c:218-304 | the main loop emits a literal exactly when the next two bytes stand nowhere in the previous 2047 positions; otherwise the longest match there, the nearest of the longest |
| LzsExact.GreedyDue | src/lzs.c:218-327 | every token of the output is the one due at its place: with more than two bytes left a copy exactly when the next pair stands in the 2047 bytes before, and then the longest such match, the nearest of the longest; with two left, a copy of two exactly when the pair is among those entered; else literals |
| LzsExact.LiteralFormat | src/lzs.c:225-228 | a literal is a 0 bit and the 8 bits of the byte |
| LzsExact.OffsetFormat | src/lzs.c:264-272 | offsets below 128 are 11 and 7 bits, others 10 and 11 bits |
| LzsExact.ShortLengthFormat | src/lzs.c:274-279 | the codes of the lengths 2 to 7, bit by bit |
| LzsExact.LongLengthFormat | src/lzs.c:279-289 | from 8 on, 1111 once more for every 15, then the rest in 4 bits |
| LzsExact.EndFormat | src/lzs.c:329-330 | the stream ends with 110000000 and seven zeros |
| LzsExact.ByteBits | src/lzs.c:143-160 | bits are written most significant first |
| LzsExact.DecodeVerdict | src/lzs.c:69-141 | a stream whose first token out of place reaches back too far is invalid, one whose first does not fit is reported too big for the buffer, and the buffer holds what came before |
| LzsExact.NeverDone | src/lzs.c:26-141 | a stream without the end pattern anywhere is never decoded successfully |
| LzsExact.CopyFromHere | src/lzs.c:134-138 | a copy that reaches back by 0 leaves the buffer as it is |
| LzsRoundTrip.PackedHoldsMarker | src/lzs.c:329-330 | the bits lost when the last byte is not filled are padding: all of the tokens and the 9 bits that end the stream are in the bytes written, so the decoder's test for two more bytes never rejects it |
| LzsEncoder.Compress | src/lzs.c:170-333 | the bytes written are the encoding of the brute-force greedy parse, and -EFBIG is returned exactly when the input is over 65536 bytes or that encoding does not fit |
| LzsEncoder.BitWriter.PutBits | src/lzs.c:143-160 | appends the bits to everything put before, fewer than 8 stay pending, and it fails only when the whole bytes do not fit |
| LzsEncoder.PutNibbles | src/lzs.c:274-289 | the chained length code, written two groups at a time, equals the code of the format |
| LzsEncoder.PutTail | src/lzs.c:306-327 | the last one or two bytes are encoded as the parse says, from what the tables hold then |
| LzsSearch.InsertHash | src/lzs.c:219-223 | the table gives the last position of a byte pair and the ring links each position within the window to the one before |
| LzsSearch.FindMatch | src/lzs.c:231-263 | following the ring from the last equal pair finds the same match as trying every start in the window, and never reads a slot that is unwritten or overwritten |
| LzsGreedy.BestIsLongestNearest | src/lzs.c:231-263 | no start in the window gives a longer match, and no nearer one an equally long one |
| LzsGreedy.GreedyReproduces | src/lzs.c:218-327 | the parse, expanded with overlapping copies, is the input |
| LzsDecoder.Decompress | src/lzs.c:69-141 | on every byte string it ends, stays inside its buffers and returns the result and the buffer of the bit-level decoder |
| LzsDecoder.GetBits | src/lzs.c:26-67 | reads the value of the next bits, with 1 to 8 bits left in the current byte, and refuses exactly when fewer than two bytes are left |
| LzsDecoder.CopyMatch | src/lzs.c:134-138 | copies byte by byte in place, as overlapping copies need |
| LzsFormat.DecodeWritten | src/lzs.c:69-141 | decoding the encoding of any applicable tokens yields the bytes they stand for and changes nothing behind them |
| LzsRoundTrip.DecodeDeterminate | src/lzs.c:69-141 | on any stream, valid or not, in which no copy reaches back by 0, the result and the bytes put out do not depend on what the output buffer held before |
| LzsFormat.CopyIsRepeat | src/lzs.c:134-138 | the in-place copy extends the output by repeating its last bytes, also where source and target overlap |
| LzsFormat.TokenRead | src/lzs.c:77-129 | a token in the bit stream is parsed back as that token, at its exact width |
| LzsFormat.EncodeBound | src/lzs.c:264-304 | no token takes more than 9 bits per byte it stands for |
| CriticalFactorization.CriticalFactorizationTheorem | gl/str-two-way.h:81-125 | the later of the greatest suffixes under the two alphabet orders cuts the word so that every repetition at the cut is a period of the whole word, longer than the left half |
| CriticalFactorization.LocalPeriodIsGlobal | gl/str-two-way.h:81-125 | at such a cut the local period is the period of the word |
| CriticalFactorization.DominatesIsGreatest | gl/str-two-way.h:126-134 | the position-wise order the loops work with is the lexicographic order of suffixes |
| MaximalSuffix.ScanNeedle | gl/str-two-way.h:135-202 | each of the two loops ends within twice the needle's length in steps, at the start of the greatest suffix under its order, with the smallest period of that suffix |
| TwoWaySearch.Factorize | gl/str-two-way.h:107-222 | the split is critical, and the period returned is the smallest one of the right half |
| TwoWay.PeriodicNeedle | gl/str-two-way.h:245-258 | when the left half recurs one period further on, the period of the right half is the period of the needle |
| TwoWay.AperiodicNeedle | gl/str-two-way.h:284-313 | otherwise every repetition at the cut is longer than both halves, so the maximal shift misses nothing |
| TwoWay.RightMismatch | gl/str-two-way.h:258-280 | a mismatch in the right half rules out every window up to the letter that did not match |
| TwoWay.LeftMismatch | gl/str-two-way.h:258-280 | once the right half has matched, a mismatch rules out every window closer than the smallest repetition at the cut |
| TwoWay.MemoryAfterShift | gl/str-two-way.h:262-280 | the letters remembered after a shift by the period do match in the new window |
| TwoWay.BadByteShift | gl/str-two-way.h:343-379 | no occurrence is skipped by the shift the table gives |
| TwoWaySearch.ShortNeedle | gl/str-two-way.h:234-314 | returns the first occurrence or none, for periodic and aperiodic needles, for any folding of letters, with at most 2 * haystack - needle comparisons; while it looks for the end of a string it looks at each byte once |
| TwoWaySearch.LongNeedle | gl/str-two-way.h:328-446 | the same with the shift table, within the same bound, the look at each window's last byte included |
| TwoWaySearch.LetterWithinPeriod | gl/str-two-way.h:366-379 | a letter of a periodic needle stands within its last period, so dropping what is remembered costs no more than the shift pays for |
| TwoWaySearch.FillShiftTable | gl/str-two-way.h:343-350 | the table holds the distance of every letter's last place from the end of the needle |
| TwoWaySearch.Available | gl/strcasestr.c:31-33 | looking for the terminator as far as needed tells whether a window lies inside the string, and extends the known length |
| Substring.Memmem | gl/memmem.c:38-73 | the smallest index where the needle stands byte for byte, or none exactly when it stands nowhere; at most 2 * haystack - needle comparisons |
| Substring.Strcasestr | gl/strcasestr.c:42-80 | the first place in the string where the needle stands up to the folding of letters, or none; at most 3 * haystack - needle comparisons, those for the end of the string included |
| Memchr.WordTest | gl/memchr.c:110-151 | the bit expression on a word is non-zero exactly when one of its 8 bytes equals the byte sought |
| Memchr.WordTest32 | gl/memchr.c:110-151 | the same for longwords of 4 bytes |
| Memchr.FindByte | gl/memchr.c:58-169 | for every buffer, alignment, byte order, longword size and length the result is the first such byte, as of a byte-by-byte scan |
| BanDb.CleanupInvisible | src/main-ban.c:109-304 | with a clock that never goes back, two runs that differ only in when cleanup is called give the same verdicts from all adds and checks |
| BanDb.EntryTellsHistory | src/main-ban.c:131-161 | after every run an entry's score is the sum of the points charged since it was created, reset or unbanned, modulo 2^32, and its expiry was set by the last charge that found it below the limit |
| BanDb.VerdictFollowsHistory | src/main-ban.c:109-283 | what add and check decide, told from the past events alone |
| BanDb.BanCountsFromCrossing | src/main-ban.c:153-161 | absent wrap-around the expiry counts from the charge that crossed the limit, however many follow: polling never prolongs a ban |
| BanDb.BannedBeforeExpiry | src/main-ban.c:153-281 | before its expiry a banned address is let in exactly when, within its window, the points of the check take the 32-bit score round to below the limit, or, the window being over, those points stay below the limit or the new expiry passes during the check |
| BanDb.WindowEndsBan | src/main-ban.c:147-161 | a run, with the times of the sample configuration, in which an address is turned away and let in before its expiry because its window has ended |
| BanDb.ScoreWraps | src/main-ban.c:109-283 | a run in which an address is turned away, charged further, and let in before its expiry |
| BanDb.AdmittedAfterExpiry | src/main-ban.c:245-283 | a check that gives its verdict after the expiry turns the address away exactly when it opens a new window, its own points reach the limit and the re-authentication time is not over |
| BanDb.TurnedAwayAgain | src/main-ban.c:245-283 | a run in which that happens |
| BanDb.BanningOff | src/main-ban.c:117-254 | with max_ban_score 0 no run ever bans anybody or enters anything |
| BanDb.OtherAddresses | src/main-ban.c:117-261 | addresses of another size than 4 or 16 are let in and leave the table alone |
| BanDb.Unbanned | src/main-ban.c:212-243 | unbanning tells whether there was an entry, and touches no other |
| BanDb.CleanupFrees | src/main-ban.c:285-304 | after any run a cleanup frees an entry exactly when, by its history, its expiry has come and its window is over |
| BanDb.SameEntry | src/main-ban.c:101-106 | two addresses share an entry exactly when equal, or IPv6 of the same /64 |
| BanDb.BanTable.Add | src/main-ban.c:109-184 | the new table and result of add_ip_to_ban_list |
| BanDb.BanTable.Check | src/main-ban.c:245-283 | the new table and verdict of check_if_banned |
| BanDb.BanTable.Unban | src/main-ban.c:212-243 | score and expiry of the entry are cleared, and nothing else |
| BanDb.BanTable.Cleanup | src/main-ban.c:285-304 | in whatever order entries are visited, exactly those past expiry and window go |
| IpPool.Lease4Sound | src/ip-lease.c:134-312 | an IPv4 lease from the pool lies in the masked network for any mask, differs from network, broadcast and local address, did not answer a ping and is not in the table |
| IpPool.Lease4Exhaustive | src/ip-lease.c:255-309 | the search fails exactly when none of its 16 tries may be leased |
| IpPool.Lease4FromPool | src/ip-lease.c:242-309 | the first try that may be leased is leased, as a pool lease |
| IpPool.Lease4Explicit | src/ip-lease.c:202-240 | an address asked for is leased, outside the pool, exactly when it is not in the table and none of the three special addresses; otherwise it is refused |
| IpPool.Lease4Unset | src/ip-lease.c:167-190 | no lease and no error exactly when there is no network or no mask; what cannot be read is an error |
| IpPool.BroadcastIsLast | src/ip-lease.c:136-142 | the broadcast address is the network's with ones in all host bits |
| IpPool.LocalIsFirst | src/ip-lease.c:296-299 | the server's own address is the network's with the lowest bit set |
| IpPool.HostIsDrawn | src/ip-lease.c:270-277 | the host bits of a try are the drawn ones |
| IpPool.GetIpv4Lease | src/ip-lease.c:155-319 | explicit and pool leases, and every error path, as the lemmas above speak about them |
| IpPool.Lease6Sound | src/ip-lease.c:118-478 | an IPv6 lease is known by its subnet, which is neither in the table nor the network's own; one from the pool lies in the network |
| IpPool.Lease6Exhaustive | src/ip-lease.c:411-460 | the search fails exactly when none of its 16 tries may be leased |
| IpPool.Lease6FromPool | src/ip-lease.c:403-467 | the first try with a vacant subnet is leased, as a pool lease |
| IpPool.Lease6Explicit | src/ip-lease.c:375-401 | an address asked for is leased, outside the pool, exactly when its subnet is not in the table and not the network's own |
| IpPool.Lease6Unset | src/ip-lease.c:332-366 | no lease and no error exactly when network or prefix is missing; impossible prefixes and unreadable addresses are errors |
| IpPool.GetIpv6Lease | src/ip-lease.c:321-485 | explicit and pool leases, and every error path, as the lemmas above speak about them |
| IpPool.LocalKeptOutExactly | src/ip-lease.c:414-475 | whatever is in the table and whatever is drawn, no subnet leased from the pool holds the server's own address if and only if the configured prefixes and network are such: subnets smaller than the network and larger than one address, or a network every draw of which is refused |
| IpPool.LocalGetsIn | src/ip-lease.c:414-475 | every other configuration leases such a subnet to the first session that draws the server's address |
| IpPool.LocalLeased | src/ip-lease.c:414-475 | with /128 subnets the server's own address can be leased |
| IpPool.PrefixToMask | src/ip-util.c:59-76 | succeeds for prefixes 1 to 128 and fills in their mask |
| IpPool.PrefixMaskBits | src/ip-util.c:59-76 | of that mask exactly the first prefix bits are set |
| LeaseBook.GrantKeeps | src/ip-lease.c:497-545 | granting, also when it fails half way, keeps the table in order and leaves every other session the very leases it had |
| LeaseBook.ReleaseKeeps | src/ip-lease.c:487-557 | releasing takes exactly the session's leases, out of the table too, and no other session's change |
| LeaseBook.SettleGives | src/ip-lease.c:502-532 | a session keeps the lease it has, or gets the one the search found, entered in the table if it is from the pool |
| LeaseBook.GrantGives | src/ip-lease.c:497-545 | granting succeeds exactly when no search that is needed fails and there is a lease in the end, and which leases there are then |
| LeaseBook.StealMoves | src/ip-lease.c:106-116 | the thief ends with the very leases the victim had, the victim with none, and nobody else's change |
| LeaseBook.StealKeeps | src/ip-lease.c:106-116 | stealing keeps the table in order if and only if the thief has no pool lease |
| LeaseBook.BlocksDisjoint | src/ip-lease.c:118-132 | pool leases of equal prefix held at the same time cover no common address |
| LeaseBook.BlocksOverlapExactly | src/ip-lease.c:118-132 | any two pool leases held at the same time overlap if and only if their prefixes differ and the smaller subnet starts inside the larger one |
| LeaseBook.BlocksOverlap | src/ip-lease.c:118-132 | it does happen: two searches that both succeed |
| LeaseBook.LeaseDb.GetIpLeases | src/ip-lease.c:497-545 | runs the two searches on the table as it is and records what they grant |
| LeaseBook.LeaseDb.StealIpLeases | src/ip-lease.c:106-116 | both leases change hands and the table stays |
| LeaseBook.LeaseDb.RemoveIpLeases | src/ip-lease.c:487-557 | both leases go |
| ConfigStore.ReloadKeeps | src/config.c:1479-1612 | a reload keeps all usage counts right and frees no configuration a session counts in |
| ConfigStore.ReloadReplaces | src/config.c:1479-1612 | a reload gives every virtual host, old and added, a new configuration; those they had are archived when a session counts in them and gone otherwise |
| ConfigStore.AcquireCounts | src/main-sec-mod-cmd.c:442-444 | a session counts in the configuration its virtual host has at that time, and nobody else's count changes |
| ConfigStore.SweepKeeps | src/config.c:1667-1681 | a sweep frees exactly the archived configurations no session counts in |
| ConfigStore.AcquireKeeps | src/main-sec-mod-cmd.c:442-444 | counts stay right when a session that counts nowhere starts to |
| ConfigStore.LeaveKeeps | src/main-proc.c:154-156 | counts stay right when a session goes |
| ConfigStore.ConfigDb.ArchiveCfg | src/config.c:1479-1509 | each virtual host's configuration is freed or archived by its count |
| ConfigStore.ConfigDb.ReloadCfgFile | src/config.c:1589-1612 | archives, then gives every old and new virtual host a fresh configuration |
| ConfigStore.ConfigDb.ClearOldConfigs | src/config.c:1667-1681 | in whatever order the attic is visited, the idle ones go |
| MainProcess.LeasesOfEveryRun | src/main-auth.c:194-206 | after every run of connects, requests, script exits, kills, removals, reloads and sweeps, the lease table is exactly the pool leases of live sessions, each with one owner, no two with one signature |
| MainProcess.BlocksOfEveryRun | src/ip-lease.c:93-132 | after every such run two IPv6 pool leases cover a common address if and only if the smaller subnet starts inside the larger one; with equal prefixes never |
| MainProcess.ConfigsOfEveryRun | src/main-worker-cmd.c:402-408 | after every such run each usage count is the number of live sessions counting there, no session is left with a freed configuration, and a sweep frees every archived one without session |
| MainProcess.RepliesOfEveryRun | src/main-worker-cmd.c:99-235 | in every such run a worker gets at most one reply, OK only after the security module accepted, the same-user check passed, the tun device had a name and a started script exited 0; and a pending script and the completed state never go together |
| MainProcess.LimitOfEveryRun | src/main-auth.c:239-262 | if all sessions of a user carry the limit m > 0, then after every run at most m of them are live, unkilled and admitted |
| MainProcess.NextKeeps | src/main-worker-cmd.c:99-430 | every single event keeps the invariant behind these four results |
| Admission.CookieOutcome | src/main-worker-cmd.c:150-235 | a first request is admitted, sent to wait for its script, denied or removed exactly by the answers it got, the leases it could be granted and the other sessions of its user; and which reply it gets |
| Admission.ScriptOutcome | src/main-worker-cmd.c:99-147 | a waiting session is admitted exactly when its script exits with 0 and reply and routes go through, and denied when it does not |
| Admission.SecondRequest | src/main-worker-cmd.c:402-408 | a session that has asked before is removed without a reply |
| Admission.CookieHolds | src/main-auth.c:166-228 | the name, limit, id, leases and configuration count of a session that is still there after its request |
| Admission.Reconnect | src/main-auth.c:193-213 | a session that takes over the id of another of its user ends with the very leases that one had, and that one with none |
| Admission.OthersOutcome | src/main-auth.c:193-213 | a request changes no other session, but for telling the one with the same id to end |
| Admission.Connected | src/main-proc.c:63-95 | a connection adds one session that holds nothing |
| Admission.Killed | src/main.h:166-170 | telling a session to end changes that mark only |
| Admission.Disconnected | src/main-proc.c:99-160 | a session that goes takes its leases and its count with it, and nobody else's |
| Admission.ReloadOfEveryRun | src/main.c:1003-1021 | the reload theorem after every run |
| Admission.SweepOfEveryRun | src/main.c:1192-1199 | after every run maintenance frees exactly the archived configurations without a session |
| MainServer.Server.constructor | src/main-proc.c:63-95 | the process starts in the first state of every run, and the invariant holds |
| MainServer.Server.NewProc | src/main-proc.c:63-95 | a connection is the connect event, and keeps the invariant |
| MainServer.Server.KillProc | src/main.h:166-170 | likewise for telling a session to end |
| MainServer.Server.Terminate | src/main.c:1022-1034 | likewise for a worker that ends or misbehaves |
| MainServer.Server.ReloadSignal | src/main.c:1001-1021 | likewise for a reload |
| MainServer.Server.Maintain | src/main.c:1192-1199 | likewise for the sweep of the attic |
| MainServer.Server.HandleCookieCommand | src/main-worker-cmd.c:402-430 | the handler, with all it calls, is the cookie event and keeps the invariant, so every sequence of calls is a run |
| MainServer.Server.ScriptChildWatcher | src/main.c:929-953 | so does the end of a connect script |
| MainServer.Server.HandleAuthCookieReq | src/main-auth.c:166-228 | opens the session, takes over the leases of the one with the same id and marks that one killed |
| MainServer.Server.OpenSession | src/main-sec-mod-cmd.c:447-540 | which fields are set, and whether the configuration is counted in, on every path, also those that fail late |
| MainServer.Server.CheckMultipleUsers | src/main-auth.c:239-262 | counting with early exit passes exactly when the other unkilled sessions of the user leave room |
| MainServer.Server.OpenTunDevice | src/tun.c:710-747 | leases first, then the device and its name; an IPv6 address that cannot be set costs that lease |
| MainServer.Server.Accept | src/main-worker-cmd.c:150-192 | check, device and script, in that order |
| MainServer.Server.HandleScriptExit | src/main-worker-cmd.c:99-147 | one reply, and the completed state only after an OK that went out and routes that were set |
| MainServer.Server.HandleCookieAuthRes | src/main-worker-cmd.c:200-235 | the status while a script runs, and after every outcome |
| MainServer.Server.RemoveProc | src/main-proc.c:99-160 | the session, its leases and its count go, and nothing else |
| UrlEscape.RoundTrip | src/html.c:115-182 | unescaping undoes escaping if and only if no byte is lost: always for bytes below 0x80, and for the others where char is unsigned or the byte is 0xff |
| UrlEscape.EscapeWellFormed | src/html.c:156-182 | the output is at most three times as long, and made of unreserved characters (section 2.3 of RFC 3986), plus signs and percent triplets (section 2.1) only |
| UrlEscape.EscapeUrl | src/html.c:156-182 | the buffer of 3 len + 1 bytes suffices, and holds the escaped text and a terminator |
| UrlEscape.EscapedByte | src/html.c:168-175 | a space becomes a plus sign, other reserved bytes a percent sign and two upper-case digits |
| UrlEscape.EscapePlain | src/html.c:168-170 | unreserved text is left as it is |
| UrlEscape.UnreservedBytes | src/html.c:168 | which bytes are unreserved, by character |
| UrlEscape.UnescapePlain | src/html.c:142-146 | without a percent sign every byte stands for itself, and a plus sign for a space |
| UrlEscape.UnescapePercent | src/html.c:126-141 | a percent sign takes the two bytes after it, also past the end, and fails when they do not scan |
| UrlEscape.BeyondIrrelevant | src/html.c:115-154 | the bytes read behind the end of the text matter only when a percent sign is among its last two bytes |
| UrlEscape.UnescapeUrl | src/html.c:115-154 | whatever stands behind the text, it fails exactly when the scanner does, and otherwise holds the text and a terminator in len + 1 bytes |

## Left out

- Option parsing and sanity checks of `src/config.c`, the small text parsers, statistics and HTTP header tables: long branch lists with easy claims.
- Sockets, fork and exec, ioctl, syslog, utmp, cgroups, routes: they appear as choices of the environment.
- Generated protocol code, SHA-1, random numbers, the ccan hash table and list and talloc: hash tables are maps, allocation succeeds, and freed objects are those no longer in the state.
- The cost of preparing a needle beyond the step count of the two suffix loops, and the comparison of the first bytes in strcasestr.
- Locale-dependent case folding: strcasestr is proved for every folding function.
- `clear_cfg` of `src/config.c`: it runs only in the security module's process, where no session counts in a configuration.
- Wrap-around of time values, usage counts and lengths near the machine's limits, except the 32-bit scores and the 16-bit match length.
- BanDb.BanTable.Add: the table exists and addresses come as bytes; the NULL tests and the text form of addresses are not modelled.
- ConfigStore.ConfigDb.ClearOldConfigs: the attics of all virtual hosts are one set.
- MainProcess.NextKeeps: commands of a worker that change neither status, leases, configuration nor replies (bans, MTU, session information) are not events.
- LeaseBook.LeaseDb.StealIpLeases: resetting the addresses of the old tun device is not modelled.
- `unescape_html` of `src/html.c`.
