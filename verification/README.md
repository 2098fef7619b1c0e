# Verified model of the Pico day clock

A Dafny model of the parts of the firmware that parse bytes, keep protocol state or compute with dates,
with proofs of what they promise over every input and every run. `dafny verify dfyconfig.toml` checks it.

| file | models |
|---|---|
| `Calendar.dfy`, `DaylightSaving.dfy` | the calendar arithmetic and daylight saving rules of `src/clock.c` |
| `DhcpOptions.dfy`, `DhcpLeases.dfy`, `DhcpServer.dfy`, `DhcpSafety.dfy` | the DHCP lease server: option field, lease table as a protocol, datagram processing in place, and the guarantee read off the wire |
| `DnsServer.dfy` | the captive portal's DNS responder |
| `NtpPacket.dfy`, `NtpClock.dfy`, `NtpKods.dfy`, `NtpTime.dfy`, `NtpMachine.dfy`, `NtpTimers.dfy`, `NtpShortGap.dfy` | the NTP request machine: datagrams, the state machine over every interleaving of callbacks and `clock_task`, what becomes of KoDs and failures, what time the clock shows, the C functions and the main loop as methods, and runs within the clock's own timers that show a bound is tight |
| `CStrings.dfy`, `UrlDecode.dfy`, `Numbers.dfy`, `FlashConfig.dfy`, `FormParser.dfy`, `FormMeaning.dfy`, `FormRoundTrip.dfy` | the configuration form: percent decoding in place, bounded integers, tokenizing, applying, what each key means and which forms are refused |
| `HttpRequest.dfy`, `HttpAnswers.dfy`, `HttpPost.dfy`, `ConnectionPool.dfy`, `TcpServer.dfy`, `HtmlTemplate.dfy` | the portal's TCP callbacks, request accumulation and page template |
| `Device.dfy` | the configuration in flash over boots, resets and portal sessions |
| `Bytes.dfy` | shared vocabulary |

Conventions. Code that works on buffers or structures in place is a method on an array or a class, proved
equal to a function of the old contents; the theorems are about those functions. True time is an unbounded
count of milliseconds; the 32-bit counter, the 16-bit expiry, the 32-bit interval and a 32-bit `long` (as on
the Pico) are written out. lwIP, flash, GPIO and the clock appear as parameters: what a datagram contains,
whether a send or a close fails, what each reading of the clock gives. Stack buffers start with arbitrary
contents. C strings are NUL-free character sequences; arrays that hold them are modelled whole.

## What turned out to differ from what one might expect

- The time between two NTP requests can fall short of the interval by any number of milliseconds below 1000,
  because `time(NULL)` counts whole seconds and the main loop may notice a tick late. It happens in runs with
  a tick every second and a fed watchdog (`NtpShortGap.ShortGapIsPossible`). `NtpClock.IntervalHasPassed`
  gives the exact condition; after a synchronisation the full interval always passes.
- A KoD or a failure that arrives between the snapshot that the main loop acts on, of a success or a KoD, and
  that act is lost (`NtpKods.LostInWindow`; `NtpKods.LateAnswerIsLost` is such a run). A KoD doubles the
  interval, and a failure resets the clock, exactly if the status still shows it when the snapshot is taken
  that the loop acts on (`NtpKods.WhenIntervalDoubles`, `NtpKods.WhenFailureResets`). A turn that finds no
  tick does not act, so its snapshot loses nothing.
- The KoD back-off doubles exactly for 15 KoDs, wraps from the 16th on and is zero from the 25th on
  (`NtpClock.BackOff`).
- A request begun when the 32-bit millisecond counter reads 0 keeps the previous start time
  (`NtpClock.StartAtZero`).
- A lease that is left alone counts as live again 2^31 ms after it ended (`DhcpLeases.LeaseWindow`).
- A POST segment that ends inside the Content-Length value closes the connection
  (`HttpRequest.SegmentationIsIrrelevant`).
- `strncpy` as it is called leaves a string field terminated exactly if the field's last element was NUL or the
  value leaves room for a terminator before it (`FlashConfig.StaysTerminated`): a field that holds a NUL
  only further in front can lose it (`FlashConfig.LastElementMatters`). No run that starts from sound flash
  has such a field (`Device.FlashStaysValid`).
- Unchecking the page's LED box does not switch an LED off that was on: an absent `led_on` keeps the old value
  (`FormRoundTrip.UncheckedLedStays`), so that form restores its settings exactly if the LED was off before.
- The daylight saving table of the repository's README.md gives local times; the code compares its bounds with
  UTC, and Chile's 24:00 is 23:59. The model follows the code.

## Model

| member | source | states |
|---|---|---|
| Calendar.TimeGmOfGmTime | src/clock.c:103-110 | converting any instant, before or after 1970, to broken-down UTC and back returns it |
| Calendar.GmTimeOfTimeGm | src/clock.c:185-190 | converting any valid broken-down time to an instant and back returns it |
| Calendar.ZellerIsDayCount | src/clock.c:70-80 | the weekday formula agrees with counting days from Thursday, 1 January 1970, for every valid date from year 1 on (and from March of year 0) |
| Calendar.YearStartClosed | src/clock.c:93-95 | the sum of the year lengths since 1970 equals the Gregorian leap-day count, for all years |
| DaylightSaving.NthWeekdayIsNth | src/clock.c:82-89 | for n in 1..4 the result is a date of the month, falls on the weekday, and exactly n such days have occurred by then |
| DaylightSaving.LastWeekdayIsLast | src/clock.c:90-100 | for n = -1 the result is a date of the month on the weekday with no later one in the month, leap Februaries included |
| DaylightSaving.DstTmsValid | src/clock.c:112-177 | in every year each rule's bounds are real calendar dates, and the start's month precedes the end's exactly under NA, EU and IL |
| DaylightSaving.BoundsAreTheRules | src/clock.c:112-177 | each rule's bounds are the published weekday of the month at the published hour, taken as UTC; Chile at 23:59, Israel on the Friday before the last Sunday of March |
| DaylightSaving.BoundsInYear | src/clock.c:112-177 | both bounds lie in their own year, in start-before-end order exactly for the northern rules |
| DaylightSaving.NaPeriod | src/clock.c:118-126 | the North American period lasts 238 days in every year |
| DaylightSaving.DstIsUnionOfPeriods | src/clock.c:179-197 | for every instant, testing only the bounds of its own year decides membership in the union of the continuous periods of all years, which in the south run across the new year |
| DaylightSaving.LocalTimeIs | src/clock.c:199-206 | local time is UTC plus the offset in minutes, plus an hour exactly within a period of the rule, and never under NONE |
| DaylightSaving.PeriodsDisjoint | src/clock.c:112-197 | the periods of a rule are non-empty and never overlap or touch |
| DaylightSaving.LocalTimeJumps | src/clock.c:199-206 | local time jumps an hour ahead exactly at starts, an hour back exactly at ends, and otherwise advances with UTC |
| DhcpOptions.OptFind | src/dhcpserver/dhcpserver.c:153-179 | the scan returns what the walk specification says, reading only within the given length |
| DhcpOptions.WalkFindsFirst | src/dhcpserver/dhcpserver.c:153-179 | on arbitrary bytes a position is returned exactly when the option there has the tag, lies wholly within the field and follows only whole options and pads without the tag |
| DhcpOptions.WalkPresent | src/dhcpserver/dhcpserver.c:153-179 | in an encoded field the first option with the tag is found, with its data |
| DhcpOptions.WalkMissing | src/dhcpserver/dhcpserver.c:153-179 | a tag absent before the end marker is not found, whatever bytes follow the marker |
| DhcpOptions.DecodeEncode | src/dhcpserver/dhcpserver.c:153-209 | decoding an encoded option field with pads returns its items |
| DhcpOptions.ItemBytes | src/dhcpserver/dhcpserver.c:158-172 | the format in bytes: 0 pads, tag, length and data make an option, 255 ends the field |
| DhcpOptions.OptWriteN | src/dhcpserver/dhcpserver.c:181-188 | writes tag, length and data at the cursor, nothing else, and advances the cursor behind them |
| DhcpOptions.OptWriteU8 | src/dhcpserver/dhcpserver.c:190-197 | writes a one-byte option at the cursor and nothing else |
| DhcpOptions.OptWriteU32 | src/dhcpserver/dhcpserver.c:199-209 | writes a big-endian four-byte option at the cursor and nothing else |
| DhcpLeases.LeaseWindow | src/dhcpserver/dhcpserver.c:266-269 | within one turn of the counter a lease is judged expired exactly in the 2^31 ms after an end that lies 24 hours to 24 hours and 65,535 ms past the grant |
| DhcpLeases.FirstMatch | src/dhcpserver/dhcpserver.c:254-259 | the slot found is the first one that holds the client's hardware address |
| DhcpLeases.FirstReusable | src/dhcpserver/dhcpserver.c:260-272 | the slot found is the first one that is free or expired |
| DhcpLeases.DiscoverChoice | src/dhcpserver/dhcpserver.c:252-281 | DISCOVER offers the client's first slot, else the first free or expired one, refuses exactly when there is neither, and clears at most one, expired, slot |
| DhcpLeases.DiscoverClears | src/dhcpserver/dhcpserver.c:252-273 | each slot's fate under DISCOVER: it is wiped exactly if it is the first reusable one, has expired, and the client holds none up to it |
| DhcpLeases.RequestOutcome | src/dhcpserver/dhcpserver.c:304-314 | REQUEST is refused exactly when another client holds the slot, even on an expired lease; a granted lease counts as live for 86,400,000 ms and as expired from 65,536 ms later on |
| DhcpLeases.HeldUntil | src/dhcpserver/dhcpserver.c:252-321 | in every run, until 24 hours after an acknowledgement the slot is held by the acknowledged client on a lease at least that recent |
| DhcpLeases.AddressIsExclusive | src/dhcpserver/dhcpserver.c:252-321 | in every run from any table, after an acknowledgement to a non-zero hardware address no other client is acknowledged that slot for 86,400,000 ms of true time |
| DhcpLeases.OfferIsHonoured | src/dhcpserver/dhcpserver.c:252-321 | a REQUEST that echoes an offer is acknowledged with it if no other client requested that slot in between |
| DhcpServer.Server.constructor | src/dhcpserver/dhcpserver.c:341-346 | the server starts with every slot free |
| DhcpServer.Server.DiscoverScan | src/dhcpserver/dhcpserver.c:252-277 | the scan over the lease array, with its own reading of the clock at each slot, makes the protocol's DISCOVER step |
| DhcpServer.Server.Grant | src/dhcpserver/dhcpserver.c:304-314 | the REQUEST case makes the protocol's step: same holder or free slot is granted and restamped, anything else leaves the table alone |
| DhcpServer.Server.Process | src/dhcpserver/dhcpserver.c:211-339 | for any datagram the table makes exactly the step that its bytes ask for; a reply is sent exactly when that step has an answer, and no byte of it comes from uninitialised memory |
| DhcpServer.DatagramMeaning | src/dhcpserver/dhcpserver.c:223-302 | a datagram of at least 243 bytes is a DISCOVER of the hardware address at 28 if its first option 53 says 1, a REQUEST for slot k if that says 3 and its first option 50 gives the server's network and 16 + k, k < 8; every other one changes nothing |
| DhcpServer.TypeFirst | src/dhcpserver/dhcpserver.c:244-248 | so a field that begins with 53, 1, kind has that type, whatever follows |
| DhcpServer.Server.WriteOptions | src/dhcpserver/dhcpserver.c:327-335 | the cursor writes put exactly the encoded six options and the end marker behind the fixed fields |
| DhcpServer.ReplyDecodes | src/dhcpserver/dhcpserver.c:327-335 | a reply keeps the transaction id and hardware address, carries the offered address, and its option field decodes to exactly the six options |
| DhcpServer.ReplyBytes | src/dhcpserver/dhcpserver.c:239-240 | every byte of a reply: BOOTREPLY, the client's header with the address put in, OFFER or ACK, server, mask, router, DNS, a lease time of 86,400 seconds, the end |
| DhcpSafety.AckIsGranted | src/dhcpserver/dhcpserver.c:283-321 | an acknowledgement on the wire answers a granted request of that client for that address |
| DhcpSafety.AddressesAreExclusive | src/dhcpserver/dhcpserver.c:211-339 | in every run of arbitrary datagrams, two acknowledgements of one address to different clients, the first with a non-zero hardware address, lie more than 24 hours apart |
| DhcpSafety.OfferedIsAcknowledged | src/dhcpserver/dhcpserver.c:251-321 | on the wire: a client that is sent an OFFER and requests that address is sent an ACK for it, if no other client requested it in between |
| DhcpSafety.ServeAll | src/dhcpserver/dhcpserver.c:211-339 | processing any datagrams one after the other sends exactly the replies of the run that the guarantee speaks of |
| DnsServer.Server.Process | src/dnsserver/dnsserver.c:109-244 | a reply is attempted exactly for a standard query whose first question has a terminated QNAME of labels 1..63, at most 255 octets long, and four more bytes; the overflow guard never fires |
| DnsServer.Server.CheckHeader | src/dnsserver/dnsserver.c:119-155 | the header checks accept exactly queries with opcode 0 and at least one question, of at least 12 bytes |
| DnsServer.Server.ReadQuestion | src/dnsserver/dnsserver.c:157-203 | the pointer walk accepts exactly what the name grammar and the two length limits accept |
| DnsServer.QuestionIsAsked | src/dnsserver/dnsserver.c:157-203 | the walk over at most 300 received bytes accepts exactly the datagrams that ask for a name; cutting off longer ones never matters |
| DnsServer.QueryBytes | src/dnsserver/dnsserver.c:140-155 | a standard query in bytes: at least 12, the top five flag bits clear, the question count not zero |
| DnsServer.QuestionBytes | src/dnsserver/dnsserver.c:169-203 | a question in figures: labels of 1 to 63 octets, at most 255 in all behind the 12 of the header, and four more bytes |
| DnsServer.OneLabel | src/dnsserver/dnsserver.c:174-177 | a question for a single label is answered exactly up to 63 octets |
| DnsServer.ReplyAnswers | src/dnsserver/dnsserver.c:205-240 | a reply keeps the id, carries the question verbatim and one A record of this server whose compressed owner decodes to the name asked |
| DnsServer.Server.WriteReply | src/dnsserver/dnsserver.c:205-236 | overwriting the request's buffer yields exactly that reply |
| NtpPacket.EraRoundTrip | src/ntp.c:92-104 | the era conversion inverts the server's timestamp for every Unix time below 2^32, on both sides of the 2036 rollover, and is onto |
| NtpPacket.GenuineReplySetsTime | src/ntp.c:60-109 | a 48-byte reply from the asked server yields the encoded time exactly when its mode is 4, its leap indicator not 3 and its stratum not 0 |
| NtpPacket.DatagramMeaning | src/ntp.c:67-109 | by its bytes a datagram is a KoD exactly from the asked address and port with 48 bytes, mode 4 and stratum 0, whatever the leap bits; a time exactly with another stratum and leap bits other than 3, the one its four seconds bytes tell; and a failure otherwise |
| NtpClock.NoOverlappingRequests | src/clock.c:490-497 | in every interleaving, no request starts while one is pending |
| NtpClock.DatagramReports | src/ntp.c:75-109 | each datagram makes the status Kod, Success with the told time, or Failed with its error, by its bytes alone, and changes nothing else |
| NtpClock.RequestReports | src/ntp.c:18-57 | a request is pending once it starts; an unknown server and a request that cannot be sent report Failed with their own errors; a lookup that cannot start resets |
| NtpClock.ActsOnTicks | src/clock.c:422-425 | in every interleaving the loop acts at most once for each tick of the timer |
| NtpClock.DecidesWhenDue | src/clock.c:490-493 | with an idle snapshot a request is decided exactly when the clock shows the interval to have passed, and certainly when it truly has since the last request |
| NtpClock.SyncedRequestIsMade | src/clock.c:414-418 | after a synchronisation it is decided on the first idle reading a full interval after its stamp |
| NtpTime.ClockShowsServerTime | src/clock.c:221-227 | in every interleaving, from when the clock is set until it is set again, it shows the time in the bytes of the last genuine answer before, plus the true time since, and the loop reads that |
| NtpTime.TimeIsTaken | src/clock.c:414-416 | a time that has been brought sets the clock on the loop's next look |
| NtpClock.RequestsApart | src/clock.c:414-420 | whatever the clock was stepped by, two requests of the main loop are decided at least the current interval apart if the clock was set in between, and otherwise less than a second short of it |
| NtpClock.StartsApart | src/clock.c:490-497 | two requests start, in true time, at least the interval apart if the clock was set in between, otherwise less than a second short of it, in each case less the first one's delay between its deciding reading and its start |
| NtpClock.IntervalHasPassed | src/clock.c:490-493 | the exact condition under which the full interval has passed in true time when a request is decided |
| NtpShortGap.ShortGapIsPossible | src/clock.c:396-398 | for every number of milliseconds below 1000 a run with a tick every second and a fed watchdog in which two requests start that much short of the interval |
| NtpShortGap.IdleSeconds | src/clock.c:422-427 | any number of seconds in which no request is due can pass in such a run and leave the clock waiting |
| NtpClock.TimeoutIsTrueTime | src/clock.c:473-478 | a pending request leads to the reset exactly when more than the timeout has truly elapsed, across the counter's wrap, unless it began at counter value 0 |
| NtpClock.StartAtZero | src/ntp.c:124-126 | a request begun at counter value 0 keeps the stored start, which measures its age rightly exactly when that start was 0 |
| NtpClock.BackOff | src/clock.c:482-485 | after k KoDs acted on, the interval is 86,400 * 2^k seconds exactly if k <= 15, and zero exactly if k >= 25 |
| NtpKods.DoublingsAreCaused | src/clock.c:482-485 | the interval is doubled at most once for each KoD received |
| NtpKods.WhenIntervalDoubles | src/clock.c:411-485 | the interval is doubled exactly when the loop acts on a snapshot taken while a received KoD, told by its bytes, had not been overwritten |
| NtpKods.OneDoublingForOneKod | src/clock.c:482-485 | every doubling answers one KoD, and no KoD is answered twice |
| NtpKods.WhenFailureResets | src/clock.c:411-481 | apart from timeouts the clock is reset exactly when the loop acts on a snapshot taken while a reported failure had not been overwritten |
| NtpKods.LostInWindow | src/clock.c:411-488 | whatever callbacks write between the snapshot of a success or a KoD and the loop's act on it is never acted on |
| NtpKods.LateAnswerIsLost | src/clock.c:484-487 | a run within the clock's timers in which any datagram, a KoD or a failure included, is lost that way |
| NtpMachine.Clock.AtomicStatus | src/ntp.c:114-134 | each null argument leaves its field alone, and the snapshot shows the fields afterwards |
| NtpMachine.Clock.RecvCallback | src/ntp.c:60-112 | handling a datagram is one step of the machine: status, error and, for a genuine time only, the new time |
| NtpMachine.Clock.DnsCallback | src/ntp.c:46-57 | the DNS result either sends the request or fails it |
| NtpMachine.Clock.StartUdpRequest | src/ntp.c:18-43 | allocation and send failures set their own errors, success leaves the request pending |
| NtpMachine.Clock.RequestAsync | src/ntp.c:172-191 | recording a request and resolving the server, with any callbacks in between; it may be called only while no request is pending, and an error leads to the reset |
| NtpMachine.Clock.ClockTask | src/clock.c:409-501 | whatever callbacks interrupt its sections, one call extends the run of the machine by one turn of its loop, and its own request keeps to RequestAsync's condition |
| NtpMachine.Clock.MainLoop | src/pico_main.c:45-64 | the request at boot and any number of turns up to the first fatal reset leave exactly the state of a run of the machine, so that every result about runs holds of the firmware's loop; its clock shows the last server's time |
| UrlDecode.UrlDecodeInPlace | src/wifi.c:270-294 | the string becomes its decoded form without trailing CR or LF although it is overwritten while read; nothing outside it changes |
| UrlDecode.DecodeLoop | src/wifi.c:270-286 | the write pointer never passes the read pointer, and what is written is the decoding of the original |
| UrlDecode.DecodeRoundTrip | src/wifi.c:259-294 | a string free of NUL and of trailing CR and LF survives every percent encoding of it |
| UrlDecode.DecodeUnits | src/wifi.c:275-285 | a percent sign with any two characters behind it is one byte, with fewer it stands for itself; a plus sign is a space; all else stands for itself |
| UrlDecode.HexDigits | src/wifi.c:259-268 | digits of either case have their value, and every other character counts as 0 |
| UrlDecode.StripsBreaks | src/wifi.c:288-291 | exactly the run of CR and LF at the end is stripped |
| Numbers.ParsesExactlyNumbers | src/wifi.c:34-50 | accepted are exactly optional white space, an optional sign and digits, whose value saturated to a long lies within the bounds |
| Numbers.DecimalRoundTrip | src/wifi.c:34-50 | every number within the bounds is read back from its decimal form |
| FlashConfig.DefaultsValid | src/wifi.c:417-426 | the configuration a first POST starts from is valid |
| FlashConfig.DefaultsAre | src/wifi.c:421-425 | they ask pool.ntp.org on port 123 within 10 seconds, for UTC without daylight saving, the LED off |
| FlashConfig.StrNCpyTerminates | src/wifi.c:452-457 | copying a value into a terminated field leaves it terminated and holding the value cut to fit |
| FlashConfig.StaysTerminated | src/wifi.c:452-457 | for any field and value, the copy leaves a terminator in the field exactly if its last element was one or the value leaves room for one before it |
| FormParser.StrTok | src/wifi.c:440-442 | the tokenizer finds the next run without delimiters, terminates it in place and leaves the rest untouched |
| FormParser.HandlePair | src/wifi.c:443-497 | one pair, split and decoded where it lies, has its specified effect on the configuration and touches nothing behind the token |
| FormParser.ParseForm | src/wifi.c:433-500 | the loop that cuts up and overwrites the body yields the configuration specified for the body as received, or refuses it |
| FormMeaning.StringKeys | src/wifi.c:452-457 | ssid, pwd and ntp copy the decoded value into their own field |
| FormMeaning.ChoiceKeys | src/wifi.c:465-496 | led_on is on for values that begin with 1; dst names one of six rules, or none |
| FormMeaning.NumberKeys | src/wifi.c:458-494 | tz, cto and port take exactly numbers in -720..840, 1000..60000 and 1..65535 |
| FormMeaning.OtherKeys | src/wifi.c:443-445 | any other key, and a pair without '=', is passed over |
| FormMeaning.RefusedExactly | src/wifi.c:459-506 | any body is refused exactly if one of its tokens gives tz, cto or port a value that is not a number within its bounds, however large |
| FormRoundTrip.ApplyFormKeepsValid | src/wifi.c:428-500 | whatever the body, an accepted form turns a valid configuration into a valid one |
| FormRoundTrip.ApplyJoined | src/wifi.c:440-499 | splitting a body joined with '&' applies exactly the joined pairs in order |
| FormRoundTrip.HoldingIsValid | src/flash_config.h:54-65 | the configuration that holds acceptable settings is valid and holds their strings |
| FormRoundTrip.FormRestoresConfig | src/wifi.c:428-500 | with all keys present, in any order, in any percent encoding, with unknown pairs in between and from any valid configuration, the form yields exactly the configuration that holds the settings |
| FormRoundTrip.PartialForm | src/wifi.c:428-500 | with any of the keys present, each sets its field, in any order, encoding and among unknown pairs, and every other field stays as it was |
| FormRoundTrip.UncheckedLedStays | src/html/form.html:281-282 | the page's form with the LED box unchecked sets everything else and leaves the LED as it was |
| FormRoundTrip.EveryConfigHasForm | src/wifi.c:259-294 | such a form exists for all settings in 8-bit characters |
| FormRoundTrip.EveryConfigHasShortForm | src/config.h:43-45 | for acceptable settings there is one of at most 1,600 characters without NUL |
| HttpRequest.PrefixVerdict | src/wifi.c:375-405 | the decision on every prefix of a whole POST: close inside the Content-Length value, wait before the last byte, then the form |
| HttpRequest.SegmentationIsIrrelevant | src/wifi.c:361-405 | however such a POST is cut, it waits until the last segment and yields the same form, unless a cut falls inside the Content-Length value, which closes the connection at the first such cut |
| HttpRequest.OtherRequestVerdict | src/wifi.c:406-412 | any other request waits until its first line is complete and is then answered by that line alone, wherever the segments end |
| HttpAnswers.GetMeaning | src/wifi.c:519-536 | a request other than a POST, once a line is complete, is answered with the page exactly if it begins with "GET /clock-config" or "GET / ", and by the redirect otherwise |
| HttpAnswers.RedirectLeadsToPage | src/config.h:31-40 | asking for the path that the redirect names gets the page |
| HttpAnswers.PostMeaning | src/wifi.c:375-405 | a POST closes its connection exactly if it announces no proper length, and yields its form exactly if as much as it announces stands behind the blank line |
| HttpRequest.AppendTakes | src/wifi.c:362-370 | the buffer takes 8,191 characters of the request and loses the rest |
| HttpRequest.BadCutMeaning | src/wifi.c:380-383 | which cuts count as falling inside the Content-Length value |
| HttpPost.PostIsWhole | src/wifi.c:361-405 | any body without NUL that fits the buffer makes, behind a request line and its length, a POST that the results on whole POSTs apply to |
| HttpPost.BadCutCloses | src/wifi.c:380-383 | every such POST, cut in two anywhere inside the announced length or its line ending, closes its connection on the first segment |
| TcpServer.PostStoresOnce | src/wifi.c:361-517 | of the verdicts on the segments of a whole POST only the last stores, at most one configuration, the same for every segmentation; a cut inside the value stores nothing |
| TcpServer.Server.ReceivePost | src/wifi.c:353-543 | the callbacks for a whole POST on a new connection, among any callbacks of other connections, store exactly that, and close the connection exactly for a cut inside the value |
| TcpServer.Server.ReceiveAll | src/wifi.c:353-543 | what the callbacks of one connection store, among any callbacks of others, is what the verdicts on its own segments say |
| TcpServer.Server.GetOnce | src/wifi.c:519-540 | a whole GET on a new connection is answered with the page or the redirect, and the connection closed exactly when the client has acknowledged all of that |
| TcpServer.Server.ClientRecv | src/wifi.c:353-543 | each segment is answered according to the accumulated request alone; only a complete valid form is stored, and the slot is freed exactly when the connection is closed |
| TcpServer.Server.JudgeRequest | src/wifi.c:375-412 | the sequence of checks reaches the specified verdict |
| TcpServer.Server.SubmitForm | src/wifi.c:415-517 | the form is parsed from a copy of the body; it is answered 400 and stores nothing exactly if it gives a bad number |
| TcpServer.Server.AcceptClient | src/wifi.c:179-227 | a valid client gets the first free slot, cleared, or is aborted when all are taken; the out-of-slots error is never returned |
| TcpServer.Server.CloseClient | src/wifi.c:110-141 | closing clears the slot and takes exactly one from the counter, whether or not the close fails |
| TcpServer.Server.ClientSent | src/wifi.c:152-162 | the connection is closed exactly when everything written has been acknowledged |
| TcpServer.Server.ClientPoll | src/wifi.c:164-169 | an idle connection is closed and its slot freed |
| TcpServer.Server.ClientErr | src/wifi.c:171-177 | a failed connection frees its slot without touching the lost pcb |
| ConnectionPool.CounterIsExact | src/wifi.c:110-226 | in every run from the empty server the counter equals the slots in use and never exceeds 4; valid clients are aborted exactly when all slots are taken; the out-of-slots branch is never reached |
| HtmlTemplate.ExpandHtmlTemplate | src/wifi.c:296-351 | returns ERR_MEM exactly when the emission leaves no room for the terminator, else ERR_VAL exactly for an unclosed placeholder, else the terminated expansion |
| HtmlTemplate.ClosedTemplates | src/wifi.c:296-351 | a template is closed exactly when it is literal text with holes, and its expansion is then the one-pass substitution, inserted values never rescanned |
| HtmlTemplate.UnclosedEmits | src/wifi.c:320-323 | a template with an unclosed placeholder emits everything in front of that and then fails |
| HtmlTemplate.HoleShows | src/wifi.c:326-335 | a key that begins ssid, pwd or ntp in any case shows the network's name, its password or the time server; any other, or no configuration, shows nothing |
| HtmlTemplate.PageHoles | src/html/form.html:199-293 | the page's own three placeholders show those |
| HtmlTemplate.GeneratedBufferSuffices | scripts/create-html-blob.py:86-89 | if each value is used at most once, the expansion of a closed template with a valid configuration fits the generated buffer |
| Device.Clock.ConfigStoreHandler | src/clock.c:248-266 | the flash then holds the given configuration with the magic, or without it when invalidating, which also reboots |
| Device.Clock.ClockInit | src/clock.c:316-367 | a held button erases and reboots; otherwise the magic decides between running and configuring |
| Device.Clock.StartAccessPoint | src/pico_main.c:50-54 | a portal session started while running begins from the running configuration |
| Device.Clock.HandlePost | src/wifi.c:415-517 | a complete POST in a session programs exactly the accepted configuration |
| Device.FlashStaysValid | src/clock.c:248-367 | in every run of boots, factory resets, sessions, POSTs, power losses and restarts, flash that carries the magic holds a valid configuration if it did at first or lacked the magic |
| Device.ConfigPersists | src/clock.c:316-367 | however often the clock restarts, until an accepted POST or a factory reset it boots into the same configuration |
| Device.PostedConfigRuns | src/wifi.c:415-517 | in any reachable session, posting a form for acceptable settings and rebooting makes the clock run with exactly the configuration that holds them |
| Device.TriggeredSessionEdits | src/pico_main.c:50-54 | a form in a session triggered while running changes the running configuration in the keys it has, and in nothing else |
| Device.FactoryResetForgets | src/clock.c:326-329 | after a factory reset the clock configures from the defaults |
| Device.PostIsStore | src/wifi.c:509-512 | a complete POST changes the flash as the store_config call of the portal's callback does |
| Device.PostedSegmentsRun | src/wifi.c:353-543 | the same from TCP segments: a POST of such a form, cut anywhere but inside the Content-Length value, makes the clock run with exactly the configuration that holds the settings |
| Device.EveryConfigCanBePosted | src/wifi.c:361-405 | for acceptable settings in 8-bit characters and any request line that leaves room there is such a POST |
| Device.Clock.Lifetime | src/pico_main.c:37-67 | handling any sequence of boots, triggers, POSTs, power losses and restarts leaves exactly the state of the run that the results speak of |

## Left out

- LCD driver, icons, fonts, displayed digits, backlight brightness and the diagnostic LEDs: device I/O.
- Socket creation, binding and sending, pbuf allocation, Wi-Fi start-up and the `connect_to_wifi` retry loop: library calls; whether a send fails is an input where it matters.
- NtpMachine.Clock.TimerCallback: the factory reset button's hold counter and the flag it raises are not modelled; a held button is an event of `Device`.
- `strtol`, `timegm`, `gmtime_r`, `strstr`, `strtok_r` and the other C library functions are modelled by what the C standard says of them; the arrays that strtok_r and strncpy write are modelled in place.
- The texts of the replies to a POST, and the access point's SSID; the page is a parameter.
- Several requests on one connection: a reply to a GET overwrites the request buffer, which the model keeps, but nothing is proved about streams of requests.
- Boot count, watchdog and Wi-Fi error codes kept in persistent state: they only feed icons and debug output.
- A torn flash write: erasing and programming a page are each one step, and power may fail between them.
- Years before 0: the weekday formula is not related to the calendar there; the bounds, periods and jumps of the daylight saving rules are proved for all years.
- TcpServer.Server.ClientRecv: the bytes behind the terminator of the request buffer are not modelled, because every later copy starts at the terminator.
- NtpMachine.Clock.ClockTask: the display work between the tick check and the dispatch is not modelled.
- NtpMachine.Clock.MainLoop: leaving the loop for the access point is not modelled; it ends a run like a reset.
