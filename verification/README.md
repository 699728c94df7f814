# ping-mtr: a verified model of the prober and the fping parser

This project models the deterministic core of ping-mtr in Dafny:

- **check_ip.py**
  - the raw-socket ICMP prober `Pinger`: the `in_cksum` checksum, the echo-request encoder, the reply-matching wait loop, the identifier, the probe cycle and `get_loss`;
  - the per-host decision of `CheckIp.run_ping` (the CSV row, and whether `mtr` runs and what is logged);
  - the per-IP totals of `sum_check_result`;
  - the host-list filter `create_ip_list`.
- **mtrfix.py**
  - the fping statistics parser `collect_xmt_rcv`, as a hand-written scanner for its two regular expressions;
  - the per-host loop of its `run_ping`.

Sockets, the clock, subprocesses and files are the environment. The models receive them as parameters:

- an abstract trace of `select` events;
- the outcome of each probe;
- what `communicate()` returned;
- the lines of the host-list file.

Python 3 semantics are modelled throughout.

- `(len / 2) * 2` is a float. An odd-length buffer therefore makes `do_checksum` read past its end.
- `struct` packs in the host's native order. The host byte order is a parameter, and the round trips are proved for both orders.
- `print(a, b, c)` joins its arguments with single spaces, so a log line is `dt + " \t " + line`.
- `raise str(e)` itself raises a `TypeError` whose message is "exceptions must derive from BaseException".

The files follow the program:

| file | module | models |
|---|---|---|
| outcomes.dfy | `Outcomes` | `Option` and `Result` |
| bytes.dfy | `Bytes` | `struct` formats `b`, `H`, `h` and `socket.htons` |
| checksum.dfy | `Checksums` | `do_checksum` and the RFC 1071 Internet checksum |
| icmp.dfy | `Icmp` | `send_icmp` packet construction and the slicing and unpacking in `receive_icmp` |
| receive.dfy | `WaitLoop` | the loop of `receive_icmp` |
| pinger.dfy | `Pinger` | `ping_once`, `get_loss` and `ping` |
| report.dfy | `CheckIp` | `CheckIp.run_ping`, `sum_check_result` and `create_ip_list` of check_ip.py |
| text.dfy | `Text` | `str.strip`, collecting captured output, and the `if line:` filter |
| mtrfix.dfy | `MtrFix` | `collect_xmt_rcv` |
| mtrrun.dfy | `MtrRun` | mtrfix.py's `run_ping` loop |

Where the code departs from RFC 1071 or from its evident intent, the model follows the code:

- The checksum reads little-endian words and swaps the result, instead of summing network-order words. It raises on odd lengths instead of adding the last byte.
- The wait loop resets its budget at every iteration.
- A packet too short to unpack raises instead of being skipped.
- A cycle with some replies lost still reports `Success`.
- The summary totals only the first five rows of each IP.
- A line of blanks in the host list is kept as an empty host.

The prober is modelled as written: `Pinger.ProbeOnce` waits with `WaitLoop.ReceiveAsWritten`, and `Icmp.EncodeRequest` uses `do_checksum` as it stands. The corrected wait loop (`WaitLoop.ReceiveWithin`), checksum (`Checksums.PaddedChecksum`) and summary (`CheckIp.Summary`) are defined beside them, each with its own properties and a lemma relating it to the code as written.

## Model

| member | source | states |
|---|---|---|
| Bytes.PackU16 | check_ip.py:187 | format `H` packs two bytes in host order, and unpacking gives the value back |
| Bytes.PackI16 | check_ip.py:187 | format `h` writes a signed value in two's complement and reads it back |
| Bytes.Htons | check_ip.py:196 | `htons` is the identity on a big-endian host and exchanges the two bytes on a little-endian one |
| Bytes.PackedHtonsReadsSwapped | check_ip.py:195-197 | on either host order, `do_checksum` reads the field written as `htons(v)` in native order as the byte swap of `v` |
| Checksums.Checksum | check_ip.py:126-149 | `do_checksum` returns a value exactly for even lengths and raises for every odd length |
| Checksums.MaskedSumExact | check_ip.py:130-134 | for at most 65537 words, the `& 0xffffffff` after each addition never changes the running sum |
| Checksums.FoldIsEac | check_ip.py:143-147 | the two carry folds of a 32-bit sum give its end-around-carry value modulo 0xFFFF |
| Checksums.OnesSumIsEac | check_ip.py:143-145 | adding words one by one with end-around carry equals folding the exact sum once |
| Checksums.ByteOrderIndependence | check_ip.py:148 | summing little-endian words and swapping gives the one's complement sum of network-order words (section 2(B) of RFC 1071) |
| Checksums.ChecksumSwapsLeSum | check_ip.py:126-149 | for even lengths up to 131074 bytes, the result is the swapped complement of the one's complement sum of the words `b[2k] + 256*b[2k+1]` |
| Checksums.ChecksumIsInternetChecksum | check_ip.py:126-149 | for even lengths up to 131074 bytes, `do_checksum` is the RFC 1071 Internet checksum |
| Checksums.ChecksumOfCompletedBuffer | check_ip.py:193-197 | a buffer whose zeroed field is filled with its own checksum, written as `send_icmp` writes it, has checksum 0 (section 1 of RFC 1071) |
| Checksums.EmptyChecksum | check_ip.py:126-149 | the empty buffer has checksum 0xFFFF |
| Checksums.OddLengthRaises | check_ip.py:127-139 | the one-byte buffer 0x45 makes `do_checksum` raise, although its RFC 1071 checksum is 0xBAFF |
| Checksums.PaddedChecksum | check_ip.py:136-141 | the corrected routine agrees with `do_checksum` on even lengths, and on odd lengths equals `do_checksum` run on the buffer padded with a zero byte |
| Checksums.PaddedChecksumIsInternetChecksum | check_ip.py:136-141 | the corrected routine is the RFC 1071 Internet checksum of every buffer shorter than 131074 bytes, odd or even |
| Icmp.PackHeader | check_ip.py:187 | `"bbHHh"` packs eight bytes that unpack to the same five fields |
| Icmp.PackUnpackHeader | check_ip.py:168 | every eight bytes are the packing of exactly one header |
| Icmp.EchoData | check_ip.py:189-191 | the payload is the 8 timestamp bytes followed by 184 bytes of `'Q'` |
| Icmp.EncodeRequest | check_ip.py:184-199 | the request is 200 bytes: type 8, code 0, the identifier, sequence 1, the timestamp, then the filler |
| Icmp.EchoChecksumVerifies | check_ip.py:193-199 | on either host order, `do_checksum` over the finished packet gives 0, and so does its Internet checksum |
| Icmp.DecodeHeader | check_ip.py:167-168 | `recv_packet[20:28]` unpacks exactly when the packet has 28 bytes, and gives back the bytes it read |
| Icmp.DecodeStamp | check_ip.py:170-171 | `recv_packet[28:36]` unpacks exactly when the packet has 36 bytes, and gives back exactly bytes 28 to 36 |
| Icmp.RequestRoundTrip | check_ip.py:167-171 | behind any 20 bytes, decoding the request gives back type 8, code 0, the identifier, sequence 1 and the timestamp bytes |
| WaitLoop.Inspect | check_ip.py:167-171 | a packet is foreign exactly when it has 28 bytes and another identifier; it is the answer exactly when it has 36 bytes and the identifier, which yields bytes 28 to 36 |
| WaitLoop.InspectFollowsDecoder | check_ip.py:167-171 | the verdict on a packet is the header decoder's, followed by the identifier test, followed by the timestamp decoder's |
| WaitLoop.ReceiveAsWritten | check_ip.py:157-175 | as written, the loop returns `Raised(NegativeTimeout)`, the `ValueError` of `select`, exactly when the timeout is negative, and a returned delay carries the 8 timestamp bytes |
| WaitLoop.ReceiveWithin | check_ip.py:157-175 | the corrected loop returns `Raised(NegativeTimeout)`, the `ValueError` of `select`, exactly when the budget is negative; a returned delay carries 8 timestamp bytes; and a trace it is still waiting at the end of spent no more than the budget |
| WaitLoop.FirstDecisive | check_ip.py:157-175 | the first event on which the loop as written stops: every earlier event is a foreign packet quicker than the timeout |
| WaitLoop.AsWrittenClosedForm | check_ip.py:157-175 | as written, the loop skips the foreign packets quicker than the timeout and the first other event decides: `select` returning nothing or a slow foreign packet gives `None`, a short packet raises, the answer gives its timestamp |
| WaitLoop.AsWrittenTimedOutIff | check_ip.py:157-175 | as written, the loop returns `None` exactly when, after foreign packets each quicker than the timeout, `select` reports nothing or a foreign packet takes the whole timeout |
| WaitLoop.AsWrittenUnpackIff | check_ip.py:167-171 | as written, the loop raises `struct.error` exactly when, after foreign packets each quicker than the timeout, a packet is too short for the header, or carries the identifier but is too short for the timestamp |
| WaitLoop.AsWrittenUndeterminedIff | check_ip.py:157-175 | as written, the loop is still waiting at the end of a trace exactly when every event of it was a foreign packet quicker than the timeout |
| WaitLoop.AsWrittenDelayIff | check_ip.py:157-175 | as written, the loop returns a packet's timestamp exactly when that packet is the first with the identifier and every earlier event was a foreign packet on which `select` spent less than the timeout |
| WaitLoop.AsWrittenDelaySound | check_ip.py:157-175 | a timestamp the loop as written returns comes from such a packet |
| WaitLoop.AsWrittenDelayComplete | check_ip.py:157-175 | such a packet makes the loop as written return its timestamp |
| WaitLoop.AsWrittenResetsBudget | check_ip.py:158 | two foreign packets of one tick each use up a two-tick timeout, yet the loop as written accepts a third packet; the corrected loop times out |
| WaitLoop.ReceiveDelayIff | check_ip.py:157-175 | the corrected loop returns a packet's timestamp exactly when that packet is the first with the identifier and the foreign packets before it took less than the timeout in total |
| WaitLoop.WithinDelaySound | check_ip.py:157-175 | a timestamp the corrected loop returns comes from the first packet with the identifier, reached within the budget |
| WaitLoop.WithinDelayComplete | check_ip.py:157-175 | such a packet makes the corrected loop return its timestamp |
| WaitLoop.BudgetOnlyShortens | check_ip.py:173-175 | every reply the corrected loop accepts is accepted by the loop as written, with the same timestamp |
| WaitLoop.OnlyIdentifierMatters | check_ip.py:168-169 | two packets that agree on length, identifier bytes and timestamp bytes are judged alike, whatever their type, code, checksum and sequence |
| WaitLoop.OwnRequestAccepted | check_ip.py:167-172 | the prober's own echo request, looped back, is accepted as its reply although its type is 8 |
| Pinger.Identifier | check_ip.py:214 | the identifier is the process id modulo 65536 |
| Pinger.IdentifierCollision | check_ip.py:214 | processes whose ids differ by a multiple of 65536 use the same identifier |
| Pinger.ProbeOnce | check_ip.py:203-217 | a probe sends a packet exactly when the name resolves; the packet carries the identifier and sequence 1; the probe counts as a reply exactly when `receive_icmp` as written returns a delay |
| Pinger.RepliesCrossProbes | check_ip.py:167-172 | a reply that echoes another probe of the same process, whatever its timestamp, type or checksum, is accepted as this probe's reply and yields the other probe's timestamp |
| Pinger.RepliesAtMost | check_ip.py:229-243 | a run of outcomes holds no more replies than outcomes |
| Pinger.GetLoss | check_ip.py:219-223 | `get_loss` returns a value exactly when something was sent, and that value is `(sent - rcvd) / sent * 100`; with `rcvd <= sent` it lies in [0, 100], it is 0 exactly when every probe was answered and 100 exactly when none was |
| Pinger.LossBounds | check_ip.py:222 | the loss formula is bounded by 0 and 100, and it reaches 0 and 100 only at full and at no reception |
| Pinger.Probes | check_ip.py:229-243 | the loop counts at most one attempt per outcome and no more replies than attempts, counts at least one attempt when it runs at all, and runs to the end unless it breaks |
| Pinger.Ping | check_ip.py:225-247 | a report has `1 <= sent <= count` and `rcvd <= sent`; it is `Failed` exactly when nothing came back; `Success` means every attempt was made; the loss is `get_loss` of the counts |
| Pinger.FirstStop | check_ip.py:229-243 | the index of the first outcome that stops the loop |
| Pinger.ProbesClosedForm | check_ip.py:229-243 | the loop raises exactly when the first stopping outcome is an exception; otherwise it counts the attempts up to and including a resolution failure and the replies before it |
| Pinger.PingClosedForm | check_ip.py:225-247 | `ping` with `count >= 1` in closed form: the counts, and the status `Failed` with no reply, `Error` after a resolution failure, `Success` otherwise |
| Pinger.PartialLossIsSuccess | check_ip.py:244-247 | one reply out of two reports `Success` with 50% loss |
| Pinger.UnresolvableHostFails | check_ip.py:234-245 | a resolution failure on the first probe reports `Failed`, not `Error`, with one attempt counted |
| Pinger.NoProbesRaises | check_ip.py:247 | with a count of 0, formatting the loss raises |
| CheckIp.RunPing | check_ip.py:331-344 | a row is written exactly when the ping report exists. `mtr` runs exactly when the status is not `Success`. Exit code 0 logs a rule, a banner with the IP, the non-empty captured streams and a rule. Any other code logs one rule only, and prints the error line with the IP on the console; no other case prints it |
| CheckIp.EscalationFollowsStatus | check_ip.py:333-334 | a cycle with no reply always escalates, and a cycle in which every attempt was answered never does |
| CheckIp.Ips | check_ip.py:361 | every IP of the file is summarised |
| CheckIp.RowsOf | check_ip.py:366 | `df.loc[df["IP"] == ip]` keeps every row of that IP as often as it occurs in the file, and no other row |
| CheckIp.RowsOfAppend | check_ip.py:366 | the selection of a file made of two parts is the selection of the first followed by that of the second, so file order is kept |
| CheckIp.IpsAreRecorded | check_ip.py:361-366 | an IP is summarised exactly when the file holds a row for it |
| CheckIp.Head | check_ip.py:366 | `.head()` keeps the first `min(n, length)` rows |
| CheckIp.TotalsOf | check_ip.py:366-368 | the totals exist exactly when the counted rows sent something, and the loss is `get_loss` of them |
| CheckIp.SummaryAsWritten | check_ip.py:355-368 | as written, the summary has one entry per IP, and its totals never exceed that IP's totals over all of its rows |
| CheckIp.Summary | check_ip.py:355-368 | the corrected summary exists exactly when every IP sent something over all of its rows; it has one entry per IP holding the sent and received totals over all of them |
| CheckIp.HeadSumsAtMost | check_ip.py:366-367 | the first rows of an IP send and receive no more than all of them |
| CheckIp.Summarise | check_ip.py:355-368 | the summary exists exactly when every IP's counted rows sent something; it has one entry per IP, holding the totals of that IP's counted rows |
| CheckIp.RcvdBelowSent | check_ip.py:366-367 | the totals receive at most what they send when every row does |
| CheckIp.SummaryLossBounds | check_ip.py:366-368 | each summarised loss lies in [0, 100], and is 0 exactly when the counted rows lost nothing |
| CheckIp.SixthRowIgnored | check_ip.py:366-367 | as written, a row added for an IP that already has five rows changes nothing in its totals |
| CheckIp.HeadDropsRows | check_ip.py:366-367 | five lost rows and a sixth that was answered in full: the summary as written reports 100% loss, the intended one counts the replies |
| CheckIp.SummaryAccumulates | check_ip.py:366-367 | the corrected summary adds every appended row to its IP's totals |
| CheckIp.SummariesAgreeOnShortRecords | check_ip.py:366-367 | while no IP has more than five rows, both summaries agree |
| CheckIp.CreateIpList | check_ip.py:381-383 | the host list has at most one host per line, each already stripped |
| CheckIp.StripIdempotent | check_ip.py:383 | every host in the list is already stripped |
| CheckIp.BlankLineIff | check_ip.py:382 | a line is dropped exactly when it consists of newlines only |
| CheckIp.CreateIpListAppend | check_ip.py:381-383 | the filter works line by line, so the order of the file is kept |
| CheckIp.CreateIpListMembers | check_ip.py:381-383 | a host is in the list exactly when it is the stripped form of a line that is not only newlines |
| CheckIp.WhitespaceLineKeptEmpty | check_ip.py:382-383 | a line of blanks that is not only newlines is kept, as the empty host |
| Text.LeadCountSpec | check_ip.py:383 | the leading run removed by `strip` is the longest prefix of selected characters |
| Text.TrailCountSpec | check_ip.py:383 | the trailing run removed by `strip` is the longest suffix of selected characters |
| Text.StripBySpec | check_ip.py:382-383 | `strip` keeps the slice between the longest selected prefix and suffix; what it keeps neither starts nor ends with a selected character, and it is empty exactly when every character is selected |
| Text.StripByRemoves | check_ip.py:382-383 | `strip` keeps a slice, removes only selected characters after it, and keeps none at its ends |
| Text.StripByEnds | check_ip.py:382-383 | what `strip` keeps neither starts nor ends with a selected character |
| Text.StripByIsStripOf | check_ip.py:382-383 | what `strip` returns is a slice whose two ends are not selected, with only selected characters around it |
| Text.StripOfUnique | check_ip.py:382-383 | such a slice is unique: any slice with only selected characters around it and none at its ends is what `strip` returns |
| Text.Captured | mtrfix.py:46-48 | one entry per non-empty stream, stdout first and stderr last, each the stream with its surrounding newlines removed and nothing else |
| Text.NonEmptyMembers | mtrfix.py:101 | `if line:` keeps exactly the entries that are not empty |
| Text.FlatMapMembers | check_ip.py:381-383 | an item is collected exactly when some element yields it |
| MtrFix.DigitRunSpec | mtrfix.py:79 | the greedy `\d*` run is all digits and stops before a non-digit |
| MtrFix.NumberSlash | mtrfix.py:79 | when `[0-9]\d*/` matches, the text from the start to the slash it ends at is a non-empty run of digits |
| MtrFix.NumberSlashComplete | mtrfix.py:79 | a non-empty run of digits followed by `/` is matched by `[0-9]\d*/`, up to that slash |
| MtrFix.TailEndIff | mtrfix.py:79 | `(\.\d{1,2})?%` matches from `q` to `e` exactly when `s[q..e-1]` is an optional fraction and `s[e-1]` is `%` |
| MtrFix.LossEndIff | mtrfix.py:79 | the loss alternatives match from `p` to `e` exactly when `s[p..e]` is one or two digits or `100`, an optional fraction, and `%` |
| MtrFix.LossEndSound | mtrfix.py:79 | what the loss alternatives match is a loss field |
| MtrFix.LossEndComplete | mtrfix.py:79 | over a loss field the alternatives match it, to its end |
| MtrFix.LossTextHasOnePercent | mtrfix.py:79 | a loss field holds no `%` before its last character |
| MtrFix.MatchAt | mtrfix.py:79 | a match of the first pattern ends past the label |
| MtrFix.MatchAtSound | mtrfix.py:79 | where the first pattern matches, the text is the label, two digit strings each followed by `/`, and a loss field |
| MtrFix.MatchAtComplete | mtrfix.py:79 | over such a field the first pattern matches, with its two digit strings |
| MtrFix.MatchAtIff | mtrfix.py:79 | the first pattern matches at `i` with fields `v` exactly when a statistics field with `v` starts at `i` |
| MtrFix.StatsAtUnique | mtrfix.py:79 | a position holds at most one statistics field |
| MtrFix.SearchStats | mtrfix.py:81 | `re.search` returns a position at or after the start where the pattern matches |
| MtrFix.SearchStatsLeftmost | mtrfix.py:81 | the search returns the leftmost match, and fails only when no position matches |
| MtrFix.SearchPair | mtrfix.py:82 | the second search returns a pair matched at some position |
| MtrFix.SearchPairPastLabel | mtrfix.py:80-82 | the second search passes over the label, which holds no digit |
| MtrFix.PairAtHead | mtrfix.py:80-82 | in text that starts with the label and two digit strings each followed by `/`, the second search returns those two strings |
| MtrFix.SecondSearchAgrees | mtrfix.py:80-83 | the second search, run on the text the first one matched, gives back the fields of that match |
| MtrFix.HasStatsIff | mtrfix.py:81 | a statistics field starts at a position exactly when the first pattern matches there |
| MtrFix.CollectXmtRcv | mtrfix.py:72-85 | `collect_xmt_rcv` returns a value exactly when the first pattern matches somewhere, and then the fields of its leftmost match |
| MtrFix.CollectSound | mtrfix.py:78-83 | what `collect_xmt_rcv` returns is the fields of the leftmost statistics field |
| MtrFix.CollectComplete | mtrfix.py:78-83 | the leftmost statistics field is what `collect_xmt_rcv` returns |
| MtrFix.CollectXmtRcvIff | mtrfix.py:72-85 | `collect_xmt_rcv` returns `v` exactly when the leftmost statistics field in the line has the fields `v` |
| MtrFix.CollectFailsIff | mtrfix.py:81-85 | `collect_xmt_rcv` raises exactly when no statistics field occurs anywhere in the line |
| MtrFix.CollectFindsFields | mtrfix.py:79-83 | a line holding `xmt/rcv/%loss = X/R/L`, with no label before it, gives back `X` and `R` exactly, leading zeros included, whatever follows |
| MtrFix.LossFieldExamples | mtrfix.py:79 | `101%` and `5.123%` are refused as loss fields, while `100.5%` and `100.99%` are accepted |
| MtrRun.Abort | mtrfix.py:117-118 | the `except` prints the message and ends the run, changing no file |
| MtrRun.PingLines | mtrfix.py:100-104 | the inner loop only appends to the files and the console, and changes nothing after an exception |
| MtrRun.PingLinesParsed | mtrfix.py:100-104 | when every non-empty entry parses, each is logged and gives one `[ip, xmt, rcv]` row, in order, and nothing else changes |
| MtrRun.PingLinesRaise | mtrfix.py:100-104 | when entry `k` is the first that does not parse, the entries up to it are logged, the rows of those before it are written, and the run ends with the message |
| MtrRun.PingLinesOutcome | mtrfix.py:100-104 | the inner loop raises exactly when some non-empty entry does not parse, and starts no subprocess |
| MtrRun.FirstFailure | mtrfix.py:100-103 | when some entry does not parse, there is a first one |
| MtrRun.MtrStep | mtrfix.py:106-113 | running `mtr` only appends to the outputs |
| MtrRun.HostStep | mtrfix.py:99-113 | one host only appends to the outputs, and does nothing after an exception |
| MtrRun.Hosts | mtrfix.py:98-113 | the host loop only appends to the outputs |
| MtrRun.MtrStartedIff | mtrfix.py:105-106 | fping is started for the host, and `mtr` right after it exactly when fping's exit code is not 0 and its output parsed |
| MtrRun.MtrLogIff | mtrfix.py:105-113 | the heading and `mtr`'s non-empty output are logged exactly when `mtr` ran and exited with 0; the console error line appears exactly when it exited with another code |
| MtrRun.MtrErrorNotRaise | mtrfix.py:113 | the console line of a failed `mtr` differs from the exception message |
| MtrRun.PingLinesRows | mtrfix.py:104 | every row the inner loop writes has three fields and names the host |
| MtrRun.HostStepRows | mtrfix.py:99-104 | every row written for a host has three fields and names the host |
| MtrRun.HostsRows | mtrfix.py:98-104 | every row the host loop writes has three fields and names a host of the list |
| MtrRun.RowsHaveThreeFields | mtrfix.py:21 | the CSV starts with the four-field header, and every row after it has three fields and names a host of the list |
| MtrRun.AbortStopsRun | mtrfix.py:93-118 | once an exception ended the run, no further host is visited |
| MtrRun.FpingTargetsAppend | mtrfix.py:98-99 | the fping targets of two runs of commands are concatenated |
| MtrRun.HostStepFping | mtrfix.py:99 | one host starts fping once, for that host |
| MtrRun.HostsStartFping | mtrfix.py:98-99 | fping is started for a prefix of the hosts, in list order, and for all of them when no exception ends the run |
| MtrRun.RunPing | mtrfix.py:93-118 | the run writes the header first and only appends after it; with no `IPlist.txt` it prints the `FileNotFoundError` message, writes nothing more and starts nothing |
| MtrRun.RunStartsFping | mtrfix.py:94-99 | `run_ping` starts fping for a prefix of the filtered host list, and for all of it when no exception ends the run; with no `IPlist.txt` it starts nothing |

## Left out

- Raw sockets, `sendto`, `recvfrom`, `select`, `gethostbyname` and the permission check are OS input and output. The wait loop gets an abstract trace of `select` events, and a probe gets whether the name resolves.
- `time.time()`, `sleep` and floats are left out. The timestamp is 8 opaque bytes. The wait loop returns the echoed timestamp instead of the float subtraction. Time is counted in abstract ticks.
- The loss is kept as an exact real. The `"{:.2f}%"` formatting is not modelled.
- The thread scheduler `PingThreading`/`MainThreading`, the semaphore and `join(timeout)` are concurrency, which this model does not cover.
- timerthead.py is a `sys.settrace` thread-kill hack. `@runtimer()` in mtrfix.py omits the `runtime` argument that timerthead.py requires, so mtrfix.py's class fails when it is defined. `collect_xmt_rcv` and the `run_ping` loop are modelled as if the decorator were not there.
- The signal handler, getopt parsing, configuration reading and writing, `cprint` colours, the `__main__` blocks and test.py are not modelled.
- `ping_check` and `mtr_check` read configuration and catch exceptions. The model is given their result: a report or `None`, and an exit code with streams or an exception.
- `socket.socket` failing with an errno other than 1 leaves `sock_fun` unbound, so `ping_once` raises. This is the `Crash` outcome of a probe, not a separate path.
- `pandas.read_csv` and the file writes are not modelled. The record file is a sequence of rows. The summary is a map, so the order of `set(df.IP.values)` is not modelled.
- In `CheckIp.run_ping`, the console line of a failed `mtr` (check_ip.py:343) is modelled. The timing message (check_ip.py:347) and the messages of its `except` clauses are not: they carry timings, or text of exceptions from outside the model.
- Files that cannot be opened in `CheckIp.run_ping` are not modelled. In mtrfix.py's `run_ping`, a missing `IPlist.txt` is `None`: the header is already written, and the `except` prints `[Errno 2] No such file or directory: 'IPlist.txt'`. The other output files are always opened, and failing to open them is not modelled.
- mtrfix.py's `create_ip_list` (lines 25-32) filters the lines exactly as check_ip.py's does, so `MtrRun.RunPing` uses `CheckIp.CreateIpList`.
- `\d` is taken to be an ASCII digit. Python's `str` patterns also accept other Unicode decimal digits.
- `CheckIp.run_ping` compares the status with `is not "Success"` (check_ip.py:333). This is modelled as string inequality, which is what it amounts to for the interned literal.
- `ping_ip` and `mtr_ip` raise a `TypeError` from `raise str(e)`. The model treats this as the `Raised` result of the subprocess, which ends the run like any other exception.
- MtrRun.PingLines, MtrRun.HostStep and MtrRun.Hosts take the parser as a parameter, and their lemmas hold for any parser. `RunPing` passes `collect_xmt_rcv`, whose behaviour the MtrFix lemmas state.
- MtrRun.Hosts and MtrRun.RunPing require one subprocess result per host of the list, since the environment must answer every host the loop may reach.
- Pinger.Ping requires one outcome per iteration the loop may run, for the same reason.
- Checksums.ChecksumIsInternetChecksum holds only for buffers of at most 131074 bytes. Past that, the 32-bit mask can change the sum. The prober's buffers are 200 bytes.
- Checksums.PaddedChecksumIsInternetChecksum holds only below 131074 bytes, for the same reason.
- Pinger.ProbeOnce treats a trace that ends while the loop still waits as an open outcome.

## Findings

| source | as written | input that shows it | evidently intended | confidence | as-written member | corrected member |
|---|---|---|---|---|---|---|
| check_ip.py:127-139 | `(len(source_string) / 2) * 2` is a float equal to the length in Python 3, so the loop reads `source_string[len]` on odd lengths and the odd-byte branch is unreachable | the one-byte buffer `[0x45]` raises IndexError | integer halving, with the last byte added on its own (zero padding, section 4.1 of RFC 1071) | not executed | Checksums.OddLengthRaises | Checksums.PaddedChecksumIsInternetChecksum |
| check_ip.py:366-367 | `.head()` keeps five rows, so each IP's totals come from its first five records only | five records of one IP with 1 sent and 0 received, then one with 3 sent and 3 received: reported 5 sent, 0 received, 100% | the totals over every record of the IP | not executed | CheckIp.HeadDropsRows | CheckIp.SummaryAccumulates |
| check_ip.py:158 | `time_remaining = timeout` sits inside the loop, so the budget is reset at every iteration and the subtraction at line 173 only compares one `select` with the timeout | timeout 2, two foreign packets of 1 tick each, then the reply: the reply is accepted after 2 ticks | the remaining budget carried across iterations | not executed | WaitLoop.AsWrittenResetsBudget | WaitLoop.ReceiveDelayIff |
