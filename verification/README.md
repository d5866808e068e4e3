# PQC scanner and capture analyser: a verified model

The repository holds two programs. `pqcscan` connects to hosts and reports which post-quantum (PQC)
key exchanges they offer; `pqcdump` reads a packet capture and reports the same from the outside.
The project models the logic of both and proves what each part promises over every input, every run
of packets and every interleaving of threads.

| part | files | what is proved |
|---|---|---|
| worker pool of pqcscan | `ScanPool`, `ScanLedger`, `ScanProgram`, `ScanTypes` | no interleaving runs on; a run that cannot go on has stopped exactly when there was a target and a thread and no scan panicked; it then has one result per target exactly when no target has an empty host; what is collected and what is lost when scans do panic; every report arrives unchanged and in the order sent |
| ClientHello, printed by pqcscan and read by pqcdump | `ClientHelloBuilder`, `ClientHello`, `ClientHelloRoundTrip`, `ClientHelloLanguage`, `HandshakeBytes` | the bytes of the handshake sent, round trip, exactly what the parser accepts, self-delimiting format, the exact bound of the length fields, the exact panic |
| ServerHello | `ServerHello`, `ServerHelloLanguage` | round trip with a key share at any position, the group 0 case, exactly what the parser accepts and when it panics |
| SSH KEXINIT, read by both programs | `NameLists`, `Utf8`, `SshKexInit`, `SshKexLanguage` | exactly what the lenient parser accepts; the strict parser is exactly the lenient one inside a well-framed packet; exactly when the strict one panics; round trip exactly for non-empty comma-free lists |
| TCP joiner | `Tcp` | closed form over every history, stream soundness modulo 2^32, independence of flows |
| SSH and TLS tables | `SshTables`, `TlsTables` | closed forms over every history, write-once slots, exact negotiation, exact host capabilities |
| packet driver and capture report | `Capture`, `CaptureViews`, `Timestamps`, `CaptureReport`, `OnePacket`, `Net` | the tables of a run are those of the payloads it looked at; the second pass is redundant on in-order traffic; exactly when a capture aborts; every field of the report by what was captured, for every hash-map order; from the bytes of one message to the tables and the report; exactly when the report aborts |
| scan report | `Csv`, `ScanReport`, `ReportCsv`, `ScanToReport` | a section 2 RFC 4180 reader gets back the header and the stable sort by host of the results; from any interleaving of the pool, the rows of the written text name every target once |
| XML escaping | `Xml` | five passes are one substitution, which one reading undoes |

`Common` holds fixed-width integers, big-endian words and `Outcome`, whose `Panic` stands for a call
that panics. pqcdump has one thread, so a panic aborts it. In a worker of pqcscan a panic ends only the
worker's task.

## How the source is modelled

- An object or a set of tables that the source updates in place is a class (`TcpJoiner`, `Builder`,
  `SshTracker`, `TlsTracker`, `Section`, `Cursor`, `Writer`). Each method is proved against a function
  on values; the lemmas about all histories are about those functions.
- The pool is a state machine. One `Action` is one atomic step of a worker or of the collector. A scan
  may return any report on its target, or panic (`Crash`).
- `+` on u16 and u32 and `*` on i64 wrap, as in a release build; `as u16` and `as u32` truncate.
- A hash map or hash set is iterated by taking any element that is left, so a contract holds for every
  iteration order.
- Where the source indexes out of bounds or unwraps an error, the model returns `Panic`.

## What the proofs found

- A target with an empty host is taken for a sentinel: it is not scanned, its worker leaves early, and
  what stands behind the last sentinel taken stays queued (`CollectsEveryTarget`, and `StoppedResults`
  for what is collected then). Target text `:22` gives such a host; `EmptyHostEndsWorker` is a run with it.
- With no targets or no threads the collector waits for ever. So it does when a scan panics
  (`RunsEndStopped`): the worker's task ends without sending `Done`, and the others cannot make up for it
  (`StuckIsQuiet`, `CrashedRunCollects`).
- An SSH scan does panic, where pqcdump ignores the message: on a KEXINIT that ends before its lists or
  inside the length word of one of the ten (`StrictPanicsExactly`). Six bytes are enough
  (`SixBytesPanic`), so one such server makes the whole scan hang.
- The record length of a ClientHello is two bytes of `body + 4`, which wraps for 65378 to 65381 bytes of
  host name, suites and schemes, where the message is still built (`Handshake`). This is a property of
  the builder: a host name is resolved before a hello is built for it (pqcscan/src/tls.rs:546), and none
  that resolves is that long.
- The read loop of pqcdump aborts exactly at a packet timestamp that cannot be converted
  (`Timestamps.ConvertsExactly`; in a classic capture file, a million microseconds or more, but for
  those of a leap second, `RecordStamps`), or when it looks at a payload that one of two parsers panics
  on (`Capture.RunPanicsExactly`): a ClientHello whose odd cipher-suite length ends with the data
  (`ClientHello.PanicsExactly`), or a ServerHello that ends before its extension length, although the
  code has a message for that, or whose extensions break off in a key_share or signature_algorithms
  extension (`ServerHello.PanicsExactly`).
- A ServerHello cut behind its extension length is noted with its cipher and group 0
  (`CutMessageHasNoGroup`). The segment with the rest is joined to it only if the first part came right
  behind a gap in the flow (`Tcp.ReturnsExactly`); on traffic in order the message is never looked at whole.
- A TLS key of an IPv6 endpoint has no brackets and does not parse back, so one such hello aborts the
  report (`ReportAbortsExactly`; `Ipv6HelloAborts` is a capture that does it).
- A session with a PQC or hybrid kex is counted as PQC by the `pqc` mark alone, so the count misses
  those whose name the data file marks hybrid but not pqc, and only those (`SessionCountIsExact`,
  `HybridOnlySession`). The data file shipped has no such name.

## Model

| member | source | states |
|---|---|---|
| ScanPool.ReachableInv | pqcscan/src/scan.rs:57-160 | every state of every interleaving keeps the queue, conservation, `Done` and report invariants, and each step has lowered the measure by one |
| ScanPool.QueueStep | pqcscan/src/scan.rs:81-114 | FIFO order: the channel stays a suffix of what was queued, and the sentinels taken are as many as the workers sent home |
| ScanPool.ConservationStep | pqcscan/src/scan.rs:108-159 | no step loses or doubles a target: taken = with a worker + in the result channel + collected |
| ScanPool.DoneStep | pqcscan/src/scan.rs:110-113 | `Done` is each worker's last message, and the remaining counter tracks the workers still to be heard |
| ScanPool.MeasureStep | pqcscan/src/scan.rs:107-160 | every step lowers one explicit measure by exactly one |
| ScanPool.CanStepIsEnabled | pqcscan/src/scan.rs:107-160 | whether some action is enabled can be read off the workers and the channels |
| ScanPool.NoDeadlock | pqcscan/src/scan.rs:107-160 | while the collector has not stopped and no scan has panicked, some step is enabled |
| ScanPool.CrashStays | pqcscan/src/scan.rs:106-136 | a panic of a scan ends its worker for good: a run had one exactly when a worker is crashed now |
| ScanPool.StuckIsQuiet | pqcscan/src/scan.rs:106-160 | a collector left waiting: every worker has exited or crashed, the result channel is empty, and every target taken has been collected or lost with a crashed worker |
| ScanPool.CrashedRunCollects | pqcscan/src/scan.rs:106-160 | when every target has a host, the results and the targets of panicked scans together are the targets, but for those nobody took, which there are only when all workers have crashed |
| ScanPool.StoppedIsQuiet | pqcscan/src/scan.rs:143-160 | when the collector stops, the result channel is empty and every worker has exited |
| ScanPool.RunsEndStopped | pqcscan/src/scan.rs:61-160 | a stopped run cannot be extended, and one that cannot be extended has stopped exactly when there was a target and a thread and no scan panicked |
| ScanPool.RunsAreBounded | pqcscan/src/scan.rs:61-160 | no run is longer than four steps a target and three a worker |
| ScanPool.CounterNeverUnderflows | pqcscan/src/scan.rs:143-151 | the counter stays between 0 and the number of threads, and a `Done` about to be collected finds it at 1 or more |
| ScanPool.StoppedResults | pqcscan/src/scan.rs:81-160 | what is collected when the collector stops: the scannable targets before the last sentinel a worker takes; the rest is still queued |
| ScanPool.CollectsEveryTarget | pqcscan/src/scan.rs:81-160 | in every interleaving the collected target specs are the multiset of the targets, and the queue is empty, exactly when no target has an empty host |
| ScanLedger.ReportsAreDelivered | pqcscan/src/scan.rs:117-158 | at any time, said by the actions alone: the reports collected and those in the channel are, in order, what the workers sent, each what its last scan returned, and with those held they are all that was returned |
| ScanLedger.FinalResults | pqcscan/src/scan.rs:130-160 | a run that cannot go on has collected, in order, what the workers sent, and that is all the scans returned |
| ScanLedger.AnyReportMayCome | pqcscan/src/scan.rs:117-129 | a scan may return any report of its type on its target, and no other |
| ScanProgram.Start | pqcscan/src/scan.rs:59-97 | the queueing makes the initial pool: no more threads than targets, the targets, and behind them one empty host for each thread |
| ScanProgram.ScanRunner | pqcscan/src/scan.rs:55-160 | under any scheduler nothing can move in the end; the collector then waits exactly without targets, without threads or after a panicked scan; otherwise the results are one per target exactly when no host is empty; while a worker is left, results and lost targets together are the targets; the results are what the scans returned, unchanged, in the order sent |
| ScanPool.EmptyHostEndsWorker | pqcscan/src/scan.rs:109-114 | a run with an empty host and one thread: it stops with nothing collected and the other target still queued |
| ClientHelloBuilder.MakeServerName | pqcscan/src/tls.rs:142-158 | the payload of server_name, or an error when it does not fit |
| ClientHelloBuilder.MakeSupportedVersions | pqcscan/src/tls.rs:160-169 | the payload of supported_versions |
| ClientHelloBuilder.MakeRecordSizeLimit | pqcscan/src/tls.rs:171-179 | the payload of record_size_limit |
| ClientHelloBuilder.MakeSupportedGroups | pqcscan/src/tls.rs:181-193 | the payload of supported_groups, or an error when it does not fit |
| ClientHelloBuilder.MakeSignatureAlgorithms | pqcscan/src/tls.rs:195-207 | the payload of signature_algorithms, or an error when it does not fit |
| ClientHelloBuilder.MakeSignedCertificateTimestamp | pqcscan/src/tls.rs:209-220 | the empty signed_certificate_timestamp |
| ClientHelloBuilder.MakeExtendedMasterSecret | pqcscan/src/tls.rs:209-224 | the empty extended_master_secret |
| ClientHelloBuilder.MakeCompressCertificate | pqcscan/src/tls.rs:226-238 | the payload of compress_certificate |
| ClientHelloBuilder.MakeRenegotiationInfo | pqcscan/src/tls.rs:240-249 | the payload of renegotiation_info |
| ClientHelloBuilder.MakeEcPointFormats | pqcscan/src/tls.rs:251-261 | the payload of ec_point_formats |
| ClientHelloBuilder.MakeStatusRequest | pqcscan/src/tls.rs:263-275 | the payload of status_request |
| ClientHelloBuilder.KeyShareLength | pqcscan/src/tls.rs:278-282 | the wrapping sum of truncated entry lengths is the encoded size modulo 2^16 |
| ClientHelloBuilder.MakeKeyShare | pqcscan/src/tls.rs:277-297 | the payload of key_share, or an error; truncation and wrapping never show, because where they happen the payload is too long |
| ClientHelloBuilder.Builder.constructor | pqcscan/src/tls.rs:311-333 | an empty builder for given random bytes |
| ClientHelloBuilder.Builder.AddExtension | pqcscan/src/tls.rs:380-383 | the extension goes last, and the running counter stays the encoded size modulo 2^16 |
| ClientHelloBuilder.Builder.AddCipherSuite | pqcscan/src/tls.rs:389-391 | the suite goes last, nothing else changes |
| ClientHelloBuilder.Builder.AddCompressionMethod | pqcscan/src/tls.rs:385-387 | the method goes last, nothing else changes |
| ClientHelloBuilder.Builder.WriteBody | pqcscan/src/tls.rs:338-359 | the body has its computed size, and is the section 4.1.2 RFC 8446 encoding whenever that can be sent |
| ClientHelloBuilder.Builder.IntoBuf | pqcscan/src/tls.rs:335-378 | the encoded message exactly when every length fits its field, an error otherwise |
| ClientHelloBuilder.BuildHandshake | pqcscan/src/tls.rs:421-442 | the fixed twelve extensions; Ok exactly up to 65381 bytes of host name, suites and schemes |
| ClientHelloRoundTrip.PayloadsDecode | pqcscan/src/tls.rs:142-297 | the lengths inside a payload count exactly what follows them, and what they count is what the extension was made from |
| ClientHelloRoundTrip.LengthsAgree | pqcscan/src/tls.rs:361-375 | the handshake length agrees with the bytes behind it; the record length does exactly for bodies up to 65531 bytes |
| ClientHelloRoundTrip.RoundTrip | pqcdump/src/tls.rs:87-182 | a built ClientHello, whatever follows it, parses to its suites and the groups of all its key shares, in order |
| ClientHelloRoundTrip.TruncationIsRejected | pqcdump/src/tls.rs:87-182 | every strict prefix of a built ClientHello is an error, never a result or a panic |
| HandshakeBytes.HandshakeIsAsAsked | pqcscan/src/tls.rs:421-442 | by offsets and literal numbers: the fields, random bytes, session id and suites, and exactly twelve extensions in order, which name the host, offer the one group asked for, list the schemes and are otherwise fixed |
| HandshakeBytes.Handshake | pqcscan/src/tls.rs:394-442 | the handshake pqcscan sends: its lengths agree exactly up to 65377 bytes, its bytes are those asked for, and pqcdump reads its suites and no group |
| ClientHello.ReadKeyShares | pqcdump/src/tls.rs:161-175 | the inner loop returns the groups of the entry list, or the entry that is too long |
| ClientHello.ReadExtensions | pqcdump/src/tls.rs:145-179 | the outer loop returns the groups of every key_share extension, or the first error |
| ClientHello.ReadCipherSuites | pqcdump/src/tls.rs:119-126 | the suites in order and the offset behind them; a panic exactly when the last pair runs past the data |
| ClientHello.ParseSslV3ClientHello | pqcdump/src/tls.rs:87-182 | the cursor walk computes the recursive grammar `Parsed`, errors and panic included |
| ClientHello.PanicsExactly | pqcdump/src/tls.rs:115-126 | the parser panics exactly when an odd cipher-suite length ends with the data |
| ClientHello.OddSuitesPanic | pqcdump/src/tls.rs:119-122 | records of 47 bytes that do it |
| ClientHello.SuffixIsIgnored | pqcdump/src/tls.rs:87-182 | for arbitrary bytes, a successful parse is unchanged by any suffix |
| ClientHello.PrefixIsRejected | pqcdump/src/tls.rs:87-182 | nothing shorter than what a successful parse looked at parses |
| ClientHelloLanguage.BlockAcceptedExactly | pqcdump/src/tls.rs:145-179 | an extension block gives these groups exactly when it is whole extensions and at most three bytes, each key_share among them whole entries and at most three bytes, and the groups are theirs in order |
| ClientHelloLanguage.AcceptedExactly | pqcdump/src/tls.rs:87-182 | for arbitrary bytes, a parse succeeds with these suites, groups and end exactly when the fields are all there, the suites are its words and the extension block is one with those groups |
| ServerHello.ParseKeyShare | pqcdump/src/tls.rs:335-363 | the entries a key_share body starts with |
| ServerHelloLanguage.SharesReadExactly | pqcdump/src/tls.rs:335-363 | the entries of a key_share body are these exactly when the body is their encoding and no further entry |
| ServerHello.ParseExtensions | pqcdump/src/tls.rs:285-311 | the entries of the last key_share extension, or a panic |
| ServerHello.BlockPanicsExactly | pqcdump/src/tls.rs:295-306 | the extension loop panics exactly when the block is whole extensions and behind them a key_share or signature_algorithms extension announced longer than what is left |
| ServerHello.BlockReadsExactly | pqcdump/src/tls.rs:285-311 | the extension loop returns entries exactly when the block is whole extensions and something it passes over, and they are those of the last key_share among the whole ones |
| ServerHello.ParseServerHelloV3 | pqcdump/src/tls.rs:184-273 | the cipher, and the group of a single entry or 0 |
| ServerHello.EncodedIsParsed | pqcdump/src/tls.rs:184-273 | the section 4.1.3 RFC 8446 encoding, whatever follows it, parses to its cipher and the group of its last key_share |
| ServerHello.ServerHelloRoundTrip | pqcdump/src/tls.rs:241-273 | one key_share with one entry at any position gives its group; none gives group 0 |
| ServerHelloLanguage.AcceptedExactly | pqcdump/src/tls.rs:184-273 | for every payload, the parser returns this cipher and group exactly when it is a ServerHello up to its extension length, the cipher is the word behind the session id, and the block is cut and the group 0, or the block is whole and the group that of its only entry, or 0 |
| ServerHelloLanguage.CutMessageHasNoGroup | pqcdump/src/tls.rs:243-273 | every prefix of a message that holds its extension length and not all its extensions gives its cipher and group 0 |
| ServerHello.LastKeyShareWins | pqcdump/src/tls.rs:300-302 | of several key_share extensions the last one is taken |
| ServerHello.PanicsExactly | pqcdump/src/tls.rs:184-306 | for every payload, the parser panics exactly when a ServerHello ends before its extension length, or its extension block is all there and panics the loop |
| ServerHello.NoExtensionsPanics | pqcdump/src/tls.rs:233-238 | the first kind of panic: every ServerHello of TLS 1.2 form without extensions and with nothing behind it |
| NameLists.JoinOfSplit | pqcdump/src/ssh.rs:187 | joining the pieces of any text gives the text |
| NameLists.SurvivesJoin | pqcdump/src/ssh.rs:187 | splitting a joined list gives it back exactly when it is non-empty and comma-free |
| Utf8.ValidExactly | pqcdump/src/ssh.rs:185 | the texts accepted as UTF-8 are exactly the encodings of Unicode scalar values |
| SshKexInit.ReadU32 | pqcdump/src/ssh.rs:190-197 | the big-endian word and the rest, or nothing and no progress |
| SshKexInit.ReadNameListOwned | pqcdump/src/ssh.rs:175-188 | the names and the rest, or nothing when the list is cut or not UTF-8 |
| SshKexInit.ParseSshKexinit | pqcdump/src/ssh.rs:153-173 | the first of ten lists, or nothing |
| SshKexLanguage.AcceptedExactly | pqcdump/src/ssh.rs:153-188 | for every payload, the lenient parser returns these names exactly when byte 5 is 20 and behind 22 bytes stand ten UTF-8 texts with their lengths, of which the first splits into the names |
| SshKexInit.Cursor.ParseSshNameList | pqcscan/src/ssh.rs:70-83 | the names at the cursor and the position after them; an error for a list that is cut or not UTF-8; a panic where the length word is missing |
| SshKexInit.TenLists | pqcscan/src/ssh.rs:105-114 | ten lists in a row, of which two are kept; the first error or panic ends it |
| SshKexInit.ParseSshMsgKexinit | pqcscan/src/ssh.rs:85-125 | the two first of ten lists, or the first error or panic, in the order of the checks |
| SshKexInit.StrictIsFramedLenient | pqcscan/src/ssh.rs:85-125 | the strict parser accepts exactly what the lenient one accepts inside a packet whose lengths add up, with the same first list, and its second |
| SshKexInit.StrictPanicsExactly | pqcscan/src/ssh.rs:70-125 | for every buffer, the strict parser panics exactly when the header passes and the data ends before the lists or, behind some whole lists, inside the length word of the next of the ten; the lenient parser returns nothing then |
| SshKexInit.SixBytesPanic | pqcscan/src/ssh.rs:71 | a packet of length 2 with type 20 and nothing else does it |
| SshKexInit.DecodesEncoded | pqcdump/src/ssh.rs:153-173 | both parsers read an RFC 4253 packet back to the split of its joined kex list, and the strict one to that of its host key list |
| SshKexInit.KexInitRoundTrip | pqcscan/src/ssh.rs:85-125 | the kex names come back from both parsers exactly when the list is non-empty and comma-free |
| Tcp.TcpJoiner.Push | pqcdump/src/tcp.rs:30-47 | the new fields and the result as `PushResult` gives them, with the wrapping sequence number |
| Tcp.AdvanceWrapsAt32Bits | pqcdump/src/tcp.rs:37-44 | a sequence number goes on past 2^32 - 1 with 0 |
| Tcp.TcpReassembler.JoinerOf | pqcdump/src/tcp.rs:67-70 | the joiner of the flow, made from the first sequence number if there is none; the other flows are untouched |
| Tcp.TcpReassembler.Push | pqcdump/src/tcp.rs:60-73 | one joiner per flow, created by its first segment; the other flows are untouched |
| Tcp.RunsAreMaximal | pqcdump/src/tcp.rs:35-44 | `Runs` cuts a history into maximal contiguous runs which together are the history |
| Tcp.JoinerState | pqcdump/src/tcp.rs:17-47 | after any history, `next_seq`, the buffer and the whole output, said by its runs |
| Tcp.JoinerClosedForm | pqcdump/src/tcp.rs:30-47 | the output is the first run and every later run of two segments or more; with the buffer it is that and the open run |
| Tcp.ReturnsExactly | pqcdump/src/tcp.rs:30-47 | after any history, what the last push returned: nothing behind a gap, the last two payloads right after a push behind a gap, else its own; and what is then buffered |
| Tcp.ReturnsStreamSlices | pqcdump/src/tcp.rs:30-47 | for slices of one stream shorter than 2^32 bytes, numbered modulo 2^32, every returned buffer is a contiguous slice over the last one or two segments |
| Tcp.FlowsAreIndependent | pqcdump/src/tcp.rs:60-73 | in interleaved flows each key's state and outputs are those of a lone joiner fed only its pushes |
| SshTables.Negotiate | pqcdump/src/ssh.rs:130-137 | the first client name that the server also lists, or none when there is none |
| SshTables.SshTracker.UpdateHostCaps | pqcdump/src/ssh.rs:139-149 | the host's names grow by the list, the other hosts stay |
| SshTables.SshTracker.ProcessSsh | pqcdump/src/ssh.rs:69-128 | both tables after a payload; nothing changes unless it is a KEXINIT |
| SshTables.TableClosedForm | pqcdump/src/ssh.rs:103-127 | after any history a flow is a key exactly when its endpoints opened in that direction, its slots hold the first KEXINIT of each side, and the negotiated name follows |
| SshTables.NeverBothDirections | pqcdump/src/ssh.rs:103-111 | a flow and its distinct reverse are never both keys |
| SshTables.SlotsAreWrittenOnce | pqcdump/src/ssh.rs:113-127 | no slot changes once written, and the negotiated name never changes once set |
| SshTables.NegotiationIsExact | pqcdump/src/ssh.rs:121-127 | `negotiated` is the negotiation of the two lists when both slots are full, and empty otherwise |
| SshTables.HostCapsAreExact | pqcdump/src/ssh.rs:113-119 | after any history the names of a host are exactly those it listed in the sessions, and the hosts exactly those heard in one |
| SshTables.HeardExactly | pqcdump/src/ssh.rs:113-119 | after any history, a host is one exactly when it sent a KEXINIT |
| SshTables.ListedExactly | pqcdump/src/ssh.rs:113-119 | after any history, a host has exactly the names of the first KEXINITs of its flows |
| SshTables.RecordedTwice | pqcdump/src/ssh.rs:113-127 | the same KEXINIT again changes nothing |
| TlsTables.TlsTracker.NoteCiphers | pqcdump/src/tls.rs:34-39 | the values join those of the key; no values make no entry |
| TlsTables.TlsTracker.NoteGroups | pqcdump/src/tls.rs:40-45 | the same for groups |
| TlsTables.TlsTracker.ProcessSslHello | pqcdump/src/tls.rs:5-84 | the three tables after a payload, or a panic in a parser |
| TlsTables.TablesClosedForm | pqcdump/src/tls.rs:29-83 | after any history an endpoint's ciphers and groups are exactly those of the hellos it sent, and a session's group is that of its last ServerHello |
| TlsTables.EntriesClosedForm | pqcdump/src/tls.rs:34-45 | an endpoint has an entry exactly when a hello it sent had something to enter |
| TlsTables.SessionGroupIsListed | pqcdump/src/tls.rs:67-80 | the group of a session is among its server's groups |
| TlsTables.RecordedTwice | pqcdump/src/tls.rs:29-83 | the same hello again changes nothing |
| Capture.Analyzer.ProcessPacketHelper | pqcdump/src/main.rs:546-567 | what looking at a payload does to both protocols' tables, or a panic |
| Capture.Analyzer.ProcessPacket | pqcdump/src/main.rs:531-543 | a payload under six bytes does nothing; any other is looked at by itself and again as the joiner returns it |
| Capture.Analyzer.ProcessJoined | pqcdump/src/main.rs:538-541 | the segment goes to the joiner of its flow, and what that returns is looked at |
| Capture.Analyze | pqcdump/src/main.rs:167-186 | the read loop leaves the tables of the whole run, the number of packets and the times of the first and the last, or panics with the run |
| Timestamps.ConvertsExactly | pqcdump/src/main.rs:183 | both unwraps succeed exactly for seconds inside the calendar and nanoseconds below one second, or below two behind a second 59 |
| Timestamps.RecordStamps | pqcdump/src/main.rs:183 | for unsigned 32-bit fields: exactly below a million microseconds, or below two million behind a second 59, and then the time is the stamp |
| Capture.LookedTwice | pqcdump/src/main.rs:536-541 | looking again at a payload just looked at changes no table |
| Capture.SecondPassIsRedundant | pqcdump/src/main.rs:531-542 | when every segment starts or continues its flow, the tables (or the panic) are those of a run without the reassembler |
| CaptureViews.InOrderExactly | pqcdump/src/main.rs:531-541 | traffic is in order exactly when the segments of every flow follow one another without a gap |
| Capture.RunIsTablesOfViews | pqcdump/src/main.rs:531-567 | the tables of a run are those of the KEXINITs and hellos in the payloads it looked at, and its joiners those of its segments |
| CaptureViews.ViewsExactly | pqcdump/src/main.rs:531-541 | the payloads a capture looks at: each of six bytes or more, and then nothing behind a gap of its flow, two joined right after one, else the same again |
| Capture.LookingPanicsExactly | pqcdump/src/main.rs:546-567 | looking at a payload panics exactly when it looks like a hello and the parser of its type panics on it |
| Capture.StepPanicsExactly | pqcdump/src/main.rs:179-186 | one turn of the loop, in any state, aborts exactly at such a payload of its own, at such a joined one, or at its timestamp |
| Capture.RunPanicsExactly | pqcdump/src/main.rs:179-186 | a run aborts exactly when it looks at such a payload, captured or joined, or meets a timestamp that cannot be converted |
| Capture.FullMillionPanics | pqcdump/src/main.rs:183 | a capture of one frame stamped with 1000000 microseconds past second 0 does it, whatever the frame holds |
| CaptureReport.CollectSshHosts | pqcdump/src/main.rs:202-246 | in every iteration order, the SSH hosts and those of them that offered a PQC kex |
| CaptureReport.CountSshSessions | pqcdump/src/main.rs:249-288 | in every iteration order, the sessions whose negotiated name is marked PQC |
| CaptureReport.CollectTlsHosts | pqcdump/src/main.rs:297-315 | the hosts with ciphers, or a panic exactly when one key is not IPv4 |
| CaptureReport.CollectGroupHosts | pqcdump/src/main.rs:317-360 | the hosts with groups and those with a PQC group join the hosts there were, or a panic exactly when one key is not IPv4 |
| CaptureReport.CountTlsSessions | pqcdump/src/main.rs:366-404 | in every iteration order, the sessions with a PQC or hybrid group |
| CaptureReport.Aggregate | pqcdump/src/main.rs:198-427 | the whole report is a function of the tables, whatever the iteration orders |
| CaptureReport.PqcSshSessionHasPqcHosts | pqcdump/src/main.rs:202-288 | after any run, a session with a PQC kex has both its addresses among the PQC hosts |
| CaptureReport.SessionCountIsExact | pqcdump/src/main.rs:259-272 | for all tables, the PQC session count is that of the sessions with a PQC or hybrid kex exactly when none negotiated a name that is hybrid only, and never more |
| CaptureReport.HybridOnlySession | pqcdump/src/main.rs:202-272 | two hosts that both list one hybrid-only name: both are PQC hosts, and their session is not counted |
| CaptureReport.PqcTlsSessionHasPqcServer | pqcdump/src/main.rs:317-404 | after any run, a session with a PQC group has its server among the PQC hosts |
| CaptureReport.PqcHostsAreHosts | pqcdump/src/main.rs:202-360 | PQC hosts are hosts |
| CaptureReport.PqcHostsOfferedPqc | pqcdump/src/main.rs:202-360 | after any run, a host is a PQC host exactly when the first KEXINIT of a flow from it lists a PQC or hybrid kex, or one of the hellos it sent has a PQC or hybrid group |
| CaptureReport.ReportSaysExactly | pqcdump/src/main.rs:198-427 | after any run, every host set and count of the report, by the KEXINITs and hellos in what was looked at |
| CaptureReport.ReportAbortsExactly | pqcdump/src/main.rs:299-320 | the report aborts exactly when an IPv6 endpoint sent a hello with suites or groups |
| CaptureReport.BuiltHelloAborts | pqcdump/src/main.rs:299-302 | a capture of one built ClientHello with suites from an IPv6 endpoint is read to its end, and its report aborts |
| CaptureReport.Ipv6HelloAborts | pqcdump/src/main.rs:299-302 | the same for a hello with one suite and no extensions |
| OnePacket.ServerHelloIsSeen | pqcdump/src/tls.rs:5-84 | a ServerHello in a record of version 3.0 to 3.4 is seen, as the hello of its sender in a session with the receiver |
| OnePacket.ServerHelloTables | pqcdump/src/tls.rs:51-80 | one ServerHello leaves the cipher and group of its sender, and the session keyed (receiver, sender) |
| OnePacket.ServerHelloReport | pqcdump/src/main.rs:290-427 | the report of one ServerHello: the sender is the one host, a PQC host exactly when the data file marks the group, and there is one session |
| OnePacket.ClientHelloTables | pqcdump/src/tls.rs:12-47 | one built ClientHello leaves the suites and groups of its sender, each if there are any, and no session |
| OnePacket.KexInitTables | pqcdump/src/ssh.rs:69-128 | one KEXINIT leaves a session with its sender as client, and the names of its sender |
| OnePacket.ExchangeTables | pqcdump/src/ssh.rs:93-127 | a KEXINIT and the reply leave one session of the side seen first, with both lists and what they negotiate, and the names of each host |
| OnePacket.ExchangeIsReported | pqcdump/src/main.rs:202-288 | a capture of a KEXINIT and the reply: two hosts, each a PQC host exactly by its own marked names, and one session |
| Csv.Writer.WriteCsvField | pqcscan/src/main.rs:631-640 | the field, quoted with doubled quotes exactly when it holds a comma, a quote or a line end |
| Csv.QuotedExactly | pqcscan/src/main.rs:632-637 | a field is quoted exactly when it holds a comma, a quote, a line feed or a carriage return, and is otherwise itself |
| Csv.Writer.WriteCsvRecord | pqcscan/src/main.rs:620-629 | the fields with commas between them and a line end behind |
| Csv.CsvRoundTrip | pqcscan/src/main.rs:620-640 | a section 2 RFC 4180 reader gets back every list of non-empty records |
| ScanReport.InsertedKeepsOrder | pqcscan/src/main.rs:199 | the host set stays strictly ascending and gains exactly the host |
| ScanReport.LexLessExactly | pqcscan/src/main.rs:157-158 | the order of hosts, by the first place at which two differ |
| ScanReport.Section.Add | pqcscan/src/main.rs:199-211 | the per-host map, the host set and the three counters go on saying what they say of all results added |
| ScanReport.Section.Tally | pqcscan/src/main.rs:203-210 | the three counters each grow by one when their condition holds, and by nothing otherwise |
| ScanReport.Section.Group | pqcscan/src/main.rs:200-211 | the result goes behind those of its host |
| ScanReport.Section.FailCount | pqcscan/src/main.rs:256-257 | the subtraction does not underflow and counts the failed results |
| ScanReport.AddResults | pqcscan/src/main.rs:190-246 | the inner loop puts each result into its section, and panics exactly when there is a `Done` |
| ScanReport.CreateReport | pqcscan/src/main.rs:165-280 | the two sections hold exactly the results of their kind in input order, success + fail = total, and the first failing file decides otherwise |
| ScanReport.AcceptedExactly | pqcscan/src/main.rs:172-245 | files are accepted exactly when all are of this version and none holds a `Done` |
| ScanReport.FirstFailureDecides | pqcscan/src/main.rs:172-245 | the first file that is not acceptable decides: a foreign version is the error, a stray `Done` the panic |
| ScanReport.GroupedIsStableSort | pqcscan/src/main.rs:538-542 | the hosts of a section in order, each with its results, list all results with hosts ascending and input order kept per host |
| ScanReport.StableSortIsUnique | pqcscan/src/main.rs:538-542 | no other list has that order |
| ReportCsv.NumberOfDecimal | pqcscan/src/main.rs:556 | a port is printed in digits without leading zeros and reads back as itself |
| ReportCsv.HeaderColumns | pqcscan/src/main.rs:522-536 | the ten columns, by name and place |
| ReportCsv.RowIsReadable | pqcscan/src/main.rs:551-567 | every cell of a row: kind, host, port, address, status, PQC mark, the PQC, hybrid and other algorithms as lists that split back, and the error |
| ReportCsv.WriteHost | pqcscan/src/main.rs:540-567 | one record per result of a host, in order |
| ReportCsv.WriteSection | pqcscan/src/main.rs:538-570 | the records of every host in host order |
| ReportCsv.WriteCsvReport | pqcscan/src/main.rs:521-603 | the header, then the SSH records, then the TLS records |
| ReportCsv.CsvReport | pqcscan/src/main.rs:148-281 | end to end: the reader gets the header and one row per SSH and per TLS result, each kind in its stable order by host; otherwise the error or panic of the files |
| ScanToReport.ReportOfScan | pqcscan/src/main.rs:521-603 | a reader of the written text of one scan finds the header and rows that name the targets of its results, one a row |
| ScanToReport.EveryTargetHasItsRow | pqcscan/src/scan.rs:81-160 | from any interleaving of the pool that stops, the file is accepted, and a reader of the written text finds the header and rows that name every target once exactly when no target had an empty host |
| ScanToReport.ScanAndReport | pqcscan/src/scan.rs:55-160 | under any scheduler, the scan and the text of its report together; no text exactly without targets, without threads or after a panicked scan; the report is of what the scans returned, unchanged |
| Xml.EscapeIsOnePass | pqcscan/src/main.rs:505-512 | the five replacements one after the other are one substitution per character |
| Xml.EscapedIsClean | pqcscan/src/main.rs:505-512 | the result holds none of the four bare characters, and every `&` in it starts one of the five entities |
| Xml.XmlRoundTrip | pqcscan/src/main.rs:505-512 | one reading from the left undoes the escaping, for every text |

## Left out

- Sockets, DNS, timeouts, the async runtime, clocks and progress logs: a scan returns any report on its target or panics, and channels do not fail while both ends live.
- `tls_connect_with_group` after the ClientHello is sent, the receive loops of `pqcscan/src/ssh.rs`, and the classification of groups: they talk to the network.
- Reading captures and slicing packets: a packet is its timestamp, flow, sequence number and payload; a frame without a TCP segment counts as one with an empty payload, which is left alone too.
- The calendar of the `chrono` crate: `timestamp_opt` is modelled as version 0.4 documents it; the fields of a timestamp have 64 bits, as on 64-bit Linux. The current time, shown for a capture without packets, is not modelled.
- `FlowKey`, `TcpFlowKey` and `format_socket_addr`: an endpoint is an address and a port; the bracketed SSH keys always parse back, the unbracketed TLS keys only for IPv4.
- The insertion order of `LinkedHashSet` host capabilities: modelled as a set.
- JSON input and output, HTML templates, the layout of the XML report, command-line arguments and opening files: a scan file is its version and its results, and a file that is missing or not a scan file is not among the inputs.
- The algorithm data files: arbitrary maps.
- Random bytes of the ClientHello: arbitrary parameters of 32 bytes.
- The per-host algorithm details, session rows and status strings of the capture report, among them `tls_hosts_pqc`, whose value depends on hash order.
- `parse_signature_algorithms` and `signature_scheme_name`: they only log; the slice in front of the call, which can panic, is modelled.
- Debug builds, where `+` panics on overflow instead of wrapping.
- Memory limits: `parse_ssh_name_list` reserves the announced length before reading.
- The alternation of making and adding the twelve extensions: the model makes all before it adds the first; the builder ends in the same state.
