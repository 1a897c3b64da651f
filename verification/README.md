# AstroTimer firmware: a Dafny model of its protocol cores

The AstroTimer firmware runs a small captive network on a Pico W: a DHCP server, a DNS server, a web
server that serves files out of an image made at build time, and a timer that drives a camera
shutter.  This project models the stateful parts of that code and proves what they are for.

| files | what they model |
|---|---|
| `DhcpTicks`, `DhcpLeases`, `DhcpOptions`, `DhcpServer`, `DhcpWire` | the DHCP lease allocator: an eight-slot table under DISCOVER and REQUEST, a wrapping 32-bit clock whose top 16 bits are kept as a lease's end, the option finder and writers, the datagrams in and out, and what is promised of the datagrams of a whole run |
| `CrlfLines`, `Sockets`, `HttpConnection`, `HttpRecvLine`, `HttpRequest`, `PostBody`, `HttpGetBody`, `HttpHeaderValues` | the receiving half of the web server: a line reader in a fixed buffer over a socket that hands out bytes in pieces of any size, the request line, the headers and the POST body with its budget |
| `ReplyWriter` | the sending half: formatted fragments, buffered and flushed over a socket that accepts any part of what it is given |
| `SimpleFs`, `ArchivePaths`, `ArchiveTrees` | the file system image: the builder's two passes, the reader's pointer arithmetic, the flattening of a directory tree into archive paths, and what is served of a tree under which path |
| `DnsNames`, `DnsAnswers` | DNS names with compression pointers, and the choice of the address that a query is answered with |
| `Admission` | the acceptor task, the handler tasks and the counting semaphore, as interleaved steps |
| `TimerSchedule`, `TimerControl` | the shutter schedule of a timer task, and the start/stop state machine |
| `Bytes`, `Words`, `CStrings`, `FiniteSets` | bytes and concatenation, remainders and 32-bit words, the C string functions that are called, and the sizes of sets |

How the parts fit together: each method that changes state in place is proved equal to a function of
the old state (`DhcpLeases.Step`, `CrlfLines.Delivered`, `SimpleFs.Image`, `ArchivePaths.Flatten`),
and the lemmas about whole runs, round trips and refinement are proved about those functions.

Conventions:

- Real time is a natural number.  The DHCP server reads its clock once for every slot during a scan,
  so a DISCOVER comes with eight non-decreasing readings; code sees them modulo 2^32.
- `recv` hands out any positive number of the next bytes, `send` accepts any positive number of the
  bytes it is given, and either may fail at any call.  The bodies of `Socket.Recv` and `Socket.Send`
  choose freely, so what is proved holds for every such behaviour.
- The message buffer of the DHCP server is on the stack: its contents before a datagram is copied
  into it are arbitrary, and so are the five bytes after it, which a search for an option at the very
  end of a message may look at.
- What is on the wire, in an image or in a request is also stated in literal bytes and offsets
  (`DhcpWire`, `HttpHeaderValues`, `ArchiveTrees`, and lemmas such as `SimpleFs.WordInImage`), so that
  a definition that the code and its specification share is tied to what it stands for.
- Ghost parameters only state for which inputs a contract speaks (`p1` and `p2`, the two spaces of a
  request line; `labels`, those of a name) or name what was received.

Where the code does not do what its comments say, the model follows the code:

- The comment on `recv_next_line_buffered` says that the next line is still found after a line that
  was too long.  It is, but when a line ends exactly at the end of a full buffer the reader gives up
  although more lines are to come (`HttpConnection.RecvNextLine` says exactly when).  A peer gets it
  there with a first chunk that fills the buffer with the request line and whole headers: the request
  is then refused without any failure, and whatever is still to come (`HttpRequest.ReadRequest`,
  through its predicate `DecidedByFirstChunk`).
- The length reported for a line that was too long is the negated length of the line only if the
  buffer overflowed once (`CrlfLines.MagnitudeIffOneOverflow`).
- `recv_line` is said to receive at least one line; each `recv` overwrites what the one before it
  stored, and `HttpRecvLine.PutTogetherIffNothingLost` says exactly when the buffer holds what was
  received all the same.  Statements about a request ask that the first chunk holds the request line.
- A request that is no POST but has a positive Content-Length leaves the body reader with a budget
  and no place in the buffer; the handler for starting the timer reads the body of any request
  (`timer.c` lines 133-136).  `HttpRequest.InputWithoutBody` shows that this is the only such case, and
  `HttpGetBody.AcceptGet` gives a request.
- A header line that is too long can look like the empty line that ends the headers, so that what
  follows it is taken for the body.  `CrlfLines.NothingDeliveredIff` says exactly for which lengths.
- Following compression pointers need not come to an end; `DnsNames.EndsIffWithinMax` and
  `DnsNames.WalkEndsIffWithinMax` say exactly when the code returns.
- An expired DHCP lease does not stay expired: about 25 days after its end it tests as live for as
  long again (`DhcpTicks.LapsedLeaseLooksLiveAgain`).
- Two files in one directory that are both called index.html but for case share a path, and only the
  first can be retrieved; `ArchivePaths.PathsDistinctIffOneIndexEach` shows that nothing else collides.

## Model

| member | source | states |
|---|---|---|
| DhcpTicks.ReclaimWindow | src/MicroLogiciel/dhcpserver/dhcpserver.c:227-228 | for every clock phase and every elapsed time, exactly when a lease last acknowledged at t tests as expired: in the first half of each 2^32 ms cycle that starts after 86,400,000 ms plus the truncation slack |
| DhcpTicks.LiveThenReclaimable | src/MicroLogiciel/dhcpserver/dhcpserver.c:227-232 | a lease tests as live for its 24 hours plus the slack, and as expired for the 2^31 ms after that |
| DhcpTicks.LapsedLeaseLooksLiveAgain | src/MicroLogiciel/dhcpserver/dhcpserver.c:227-228 | the test is not monotone: after the reclaim window an abandoned lease tests as live for another 2^31 ms |
| DhcpLeases.LeaseIsExclusive | src/MicroLogiciel/dhcpserver/dhcpserver.c:213-276 | in any run of messages by any clients from any table, an address acknowledged to a non-zero MAC is neither offered nor acknowledged to another one by any look at it up to the end of the lease, which is 24 hours and the slack later |
| DhcpLeases.ZeroAddressIsNotExclusive | src/MicroLogiciel/dhcpserver/dhcpserver.c:259-263 | the restriction to non-zero MACs is needed: a slot acknowledged to the zero MAC is acknowledged to any other at once |
| DhcpLeases.LapsedLeaseIsReoffered | src/MicroLogiciel/dhcpserver/dhcpserver.c:215-240 | the bound is exact: from the lease's end on, for 2^31 ms, a newcomer's DISCOVER clears the lease and is offered its address if no other slot is open |
| DhcpLeases.RefusedOnlyWhenFull | src/MicroLogiciel/dhcpserver/dhcpserver.c:214-238 | a DISCOVER goes unanswered if and only if all eight slots are other clients' and each tests as live when it is looked at |
| DhcpLeases.DiscoverClearsAtMostOne | src/MicroLogiciel/dhcpserver/dhcpserver.c:215-241 | a DISCOVER clears at most one lease, only the owner field of it, never one that tests as live or is the requester's, and offers the requester's own slot if there is one and otherwise one that is then free |
| DhcpLeases.OfferIsHonoured | src/MicroLogiciel/dhcpserver/dhcpserver.c:213-276 | in any run, the address offered to a client is acknowledged when it requests it, unless another client's request for it was acknowledged in between |
| DhcpLeases.HeldAsOffered | src/MicroLogiciel/dhcpserver/dhcpserver.c:215-241 | inductive invariant of runs in which clients request what they were last offered: a slot is held only by the client whose latest offer it was |
| DhcpLeases.OneLeasePerClient | src/MicroLogiciel/dhcpserver/dhcpserver.c:254-268 | in such runs from the empty table no client ever holds two slots |
| DhcpLeases.SecondSlotIffTaken | src/MicroLogiciel/dhcpserver/dhcpserver.c:259-268 | from a table with at most one slot for each client, a message keeps it so if and only if it is not a client's REQUEST for a free slot while it holds another |
| DhcpLeases.OneSlotEachIffNoneTaken | src/MicroLogiciel/dhcpserver/dhcpserver.c:213-276 | over every run from the empty table: no client ever holds two slots if and only if no message is of that kind |
| DhcpLeases.GreedyClientHoldsTwo | src/MicroLogiciel/dhcpserver/dhcpserver.c:254-268 | the concrete input: two REQUESTs by one client for two free slots |
| DhcpOptions.Find | src/MicroLogiciel/dhcpserver/dhcpserver.c:150-158 | the loop finds what the walk over code/length/value triples finds within the 308-byte window |
| DhcpOptions.WriteN | src/MicroLogiciel/dhcpserver/dhcpserver.c:160-166 | one option is laid down at the cursor, the cursor moves past it, and all other bytes stay |
| DhcpOptions.WriteU8 | src/MicroLogiciel/dhcpserver/dhcpserver.c:168-174 | the same for a one-byte value |
| DhcpOptions.WriteU32 | src/MicroLogiciel/dhcpserver/dhcpserver.c:176-185 | the same for a 32-bit value in network byte order |
| DhcpOptions.FindsWhatWasWritten | src/MicroLogiciel/dhcpserver/dhcpserver.c:150-166 | round trip: for any options with codes other than END and values under 256 bytes, closed by END in the window, the finder recovers the first value of the wanted code exactly, or nothing if there is none |
| DhcpOptions.FindIgnoresMemoryBeyond | src/MicroLogiciel/dhcpserver/dhcpserver.c:151-155 | what lies after the window never changes the result, though a length byte there may be read |
| DhcpOptions.LongValueIsCut | src/MicroLogiciel/dhcpserver/dhcpserver.c:160-166 | a written value is recovered if and only if its length fits the length byte |
| DhcpOptions.OptionsOnTheWire | src/MicroLogiciel/dhcpserver/dhcpserver.c:160-185 | a message type and an address as options, in literal bytes |
| DhcpOptions.WordOnTheWire | src/MicroLogiciel/dhcpserver/dhcpserver.c:176-185 | a 32-bit value is written with its high byte first |
| DhcpServer.DhcpServer.constructor | src/MicroLogiciel/dhcpserver/dhcpserver.c:300-304 | a new server has eight free slots |
| DhcpServer.DhcpServer.Scan | src/MicroLogiciel/dhcpserver/dhcpserver.c:214-234 | the in-place scan with its early exit leaves the declaratively described table and slot |
| DhcpServer.DhcpServer.Claim | src/MicroLogiciel/dhcpserver/dhcpserver.c:259-269 | the in-place claim of a slot is the REQUEST step of the table |
| DhcpServer.DhcpServer.WriteReply | src/MicroLogiciel/dhcpserver/dhcpserver.c:282-293 | the reply's options, written over the request's, fit the message for every domain name under 256 bytes |
| DhcpServer.DhcpServer.Process | src/MicroLogiciel/dhcpserver/dhcpserver.c:187-298 | every datagram, of any length and contents, makes exactly the table step it asks for, and is answered by exactly the datagram of that step's reply or not at all |
| DhcpServer.Serve | src/MicroLogiciel/dhcpserver/dhcpserver.c:187-298 | over any sequence of datagrams the server object goes through a run of table steps, one for each, and sends that run's replies, so that the statements on runs hold for it |
| DhcpServer.ReplyIsReadable | src/MicroLogiciel/dhcpserver/dhcpserver.c:282-294 | every reply fits a message, carries the client's address, transaction and MAC, and the finder recovers its options, whatever follows it in memory |
| DhcpServer.NothingShadowed | src/MicroLogiciel/dhcpserver/dhcpserver.c:282-292 | no option of a reply hides another of them |
| DhcpServer.OfferedAddressAsksForItsSlot | src/MicroLogiciel/dhcpserver/dhcpserver.c:239-258 | on the wire: a client that puts the offered address into its DHCPREQUEST among any other options asks for exactly the slot that was offered |
| DhcpWire.MeaningOfDatagram | src/MicroLogiciel/dhcpserver/dhcpserver.c:199-258 | what every datagram asks for, by its literal bytes: a DISCOVER, a REQUEST for exactly the slot whose address it names, or nothing, and exactly when nothing |
| DhcpWire.DiscoverOnTheWire | src/MicroLogiciel/dhcpserver/dhcpserver.c:213-214 | a datagram whose options begin with message type 1 is a DISCOVER of the client in its hardware address field |
| DhcpWire.ReplyOnTheWire | src/MicroLogiciel/dhcpserver/dhcpserver.c:201-204 | the fixed part of every reply and its message type, byte by byte |
| DhcpWire.ReplyOptionsOnTheWire | src/MicroLogiciel/dhcpserver/dhcpserver.c:282-293 | the value of every option of a reply, by its code |
| DhcpWire.DiscoverIsAnswered | src/MicroLogiciel/dhcpserver/dhcpserver.c:213-243 | over any run of datagrams: a DISCOVER gets a DHCPOFFER, of one of the eight addresses, if and only if not all eight slots are other clients' with leases that test as live |
| DhcpWire.RequestIsAnswered | src/MicroLogiciel/dhcpserver/dhcpserver.c:244-276 | over any run of datagrams: a REQUEST for an address gets a DHCPACK for it if and only if its slot is free or the client's own |
| DhcpWire.NoOtherClientIsGivenIt | src/MicroLogiciel/dhcpserver/dhcpserver.c:187-298 | over any run of datagrams: once a DHCPACK has given an address to a client, no reply up to the lease's end gives that address to another one |
| DhcpWire.OfferIsAcknowledged | src/MicroLogiciel/dhcpserver/dhcpserver.c:187-298 | over any run of datagrams: a client that was offered an address and asks for it, among any other options, gets a DHCPACK for it, unless one for another client came in between |
| CrlfLines.SplittingIsExact | src/MicroLogiciel/httpserver.c:68-81 | splitting a stream at CR LF loses nothing, adds nothing and leaves no line unsplit |
| CrlfLines.SplittingInvertsJoining | src/MicroLogiciel/httpserver.c:68-81 | lines that are joined with CR LF are split again into the same lines |
| CrlfLines.DeliveredIffFits | src/MicroLogiciel/httpserver.c:59-60 | the length delivered is non-negative if and only if the line fits the buffer with its CR LF, and then bytes and length are the line's |
| CrlfLines.MagnitudeIffOneOverflow | src/MicroLogiciel/httpserver.c:75-90 | a negative length is the negated length of the line if and only if the buffer overflowed once, which depends on whether its last byte was a CR |
| CrlfLines.LongLineDelivered | src/MicroLogiciel/httpserver.c:75-90 | exactly what is delivered of a line without CRs that does not fit: which of its last bytes, and which length |
| CrlfLines.NothingDeliveredIff | src/MicroLogiciel/httpserver.c:83-90 | nothing is delivered of a line without CRs if and only if its length is a multiple of the buffer's or one less than that; such a header line ends the headers (line 227) |
| HttpConnection.HttpConnection.RecvNextLine | src/MicroLogiciel/httpserver.c:61-117 | for every chunking, every buffer of two bytes or more and any budget: the result is the delivery of the first line of what was pending and exactly the rest stays pending; the budget pays for exactly what is received; nothing outside the window changes; NULL means that no whole line has been received, and that the connection failed, the budget is spent, or the buffer is full and ends with a line; a line that is in the buffer already is delivered without receiving anything |
| HttpConnection.HttpConnection.MakeRoom | src/MicroLogiciel/httpserver.c:83-95 | a full buffer is discarded but for a final CR, other unread bytes are kept in order |
| HttpConnection.HttpConnection.Refill | src/MicroLogiciel/httpserver.c:97-115 | one recv adds to the pending bytes nothing and takes nothing away, within buffer and budget |
| HttpRecvLine.RecvLine | src/MicroLogiciel/httpserver.c:40-57 | recv_line as it is: the buffer holds the chunks stored one over the other at its start, and it returns after the first of them with which a break shows up |
| HttpRecvLine.OneChunkIsEnough | src/MicroLogiciel/httpserver.c:40-57 | if the first chunk holds a line break it is the only one received, and the buffer begins with it |
| HttpRecvLine.PutTogetherIffNothingLost | src/MicroLogiciel/httpserver.c:40-57 | for any number of chunks, the buffer holds all that was received if and only if every byte of a chunk that no later one covers, and of the old buffer that none covers, is the stream's byte at that offset |
| HttpRecvLine.LastChunkBeginsAll | src/MicroLogiciel/httpserver.c:44 | so the last chunk would have to be the beginning of the whole |
| HttpRecvLine.SplitLineIsOverwritten | src/MicroLogiciel/httpserver.c:44 | for two chunks: if and only if the second begins like the whole and the rest was in the buffer before |
| HttpRequest.ReadRequestLine | src/MicroLogiciel/httpserver.c:180-213 | a request line with two spaces that came in the first chunk is parsed as in the stream, its path is in the buffer, and what follows it is pending |
| HttpRequest.ReadHeaders | src/MicroLogiciel/httpserver.c:220-237 | the headers are the deliveries of consecutive lines up to the first of which nothing is delivered; the last Content-Length and the last Host that fits count, and the host fits its 32 bytes; what follows stays pending; headers that are in the buffer with their empty line are accepted, and headers that fill it without one are refused, either without receiving anything |
| HttpRequest.ReadRequest | src/MicroLogiciel/httpserver.c:178-244 | the whole of it: path intact after all header reads, headers from the lines after the request line, the body reader handed exactly what follows them with a budget of the Content-Length less what is buffered; a refusal has one of three reasons: the connection failed, there is no room for headers, or the buffer was filled by lines to its last byte; and if the first chunk fills the buffer with whole headers and no empty line, it is refused, whatever is to come, while headers that are complete in it are accepted |
| HttpRequest.OnlyHeadersIff | src/MicroLogiciel/httpserver.c:220-229 | in terms of lines, what fills the buffer without an end of the headers |
| HttpRequest.HeadersAndEndIff | src/MicroLogiciel/httpserver.c:227-229 | in terms of lines, what holds an end of the headers |
| HttpRequest.InputWithoutBody | src/MicroLogiciel/httpserver.c:239-244 | a body line is read from a place that was never set if and only if the request is no POST and its Content-Length is positive |
| HttpHeaderValues.PostIffItBegins | src/MicroLogiciel/httpserver.c:198-200 | a request is a POST if and only if it begins with "POST " up to case |
| HttpHeaderValues.ContentLengthIs | src/MicroLogiciel/httpserver.c:231-236 | the last header "Content-length: " with a number in decimal digits, up to case, gives exactly that number |
| HttpHeaderValues.HostIs | src/MicroLogiciel/httpserver.c:231-233 | the last header "Host: " with a value of up to 30 bytes gives that value |
| HttpHeaderValues.BodyOfLength | src/MicroLogiciel/httpserver.c:436-462 | of a POST whose headers announce n bytes, and whose reading was not cut short, the lines read are exactly the lines of the first n bytes of the body |
| CStrings.AtoiOfDecimal | src/MicroLogiciel/httpserver.c:235 | every number is read back from its decimal digits |
| CStrings.SameUpToCase | src/MicroLogiciel/httpserver.c:198 | what is compared without case: the letters A to Z with a to z, and nothing else |
| HttpGetBody.AcceptGet | src/MicroLogiciel/httpserver.c:239-244 | the concrete input: a GET with Content-Length 5 in one chunk is accepted with input to read, and the place of the body reader is what it was before |
| PostBody.ReadPostLine | src/MicroLogiciel/httpserver.c:436-462 | a line is the next one pending and fits the buffer; bytes received plus budget left is constant, a budget that is not negative stays so; nothing before the body reader's part of the buffer changes; after NULL no whole line that was received is withheld but one that does not fit, and NULL has one of four reasons |
| PostBody.ReadBody | src/MicroLogiciel/timer.c:41-44 | over any number of calls, the lines read are exactly the lines of the bytes taken, before the first that does not fit; reading stops only for such a line, a failure, a spent budget or a buffer filled by its last line; bytes received plus budget left is constant, and nothing before that part of the buffer changes |
| HttpRequest.ServePost | src/MicroLogiciel/httpserver.c:178-244 | headers and body lines come from one stream, consecutively; the path survives all the reads; the budget left is the Content-Length less the body bytes taken; the body lines are exactly those of the bytes taken, before the first that does not fit; if the Content-Length covers what came with the headers, no byte beyond it is ever taken, and without failure and with lines that fit and do not end at the buffer's end, the lines are exactly those of the first Content-Length bytes of the body; otherwise nothing more is taken |
| ReplyWriter.SendAll | src/MicroLogiciel/httpserver.c:137-170 | everything is sent, in order, or a send has failed and a prefix was sent |
| ReplyWriter.ReplyWriter.Begin | src/MicroLogiciel/httpserver.c:391-395 | a reply begins with its header |
| ReplyWriter.ReplyWriter.Write | src/MicroLogiciel/httpserver.c:397-413 | what was sent plus what is buffered is the reply so far with the fragment added |
| ReplyWriter.ReplyWriter.End | src/MicroLogiciel/httpserver.c:415-434 | the footer is added and everything has been sent |
| ReplyWriter.WriteWholeReply | src/MicroLogiciel/httpserver.c:391-434 | the peer gets header, fragments and footer, in order and complete, however sends are split |
| SimpleFs.Measure | src/Tools/SimpleFSBuilder/SimpleFSBuilder.cpp:110-118 | the first pass finds the sizes of the blocks |
| SimpleFs.Build | src/Tools/SimpleFSBuilder/SimpleFSBuilder.cpp:97-164 | the fill loops produce the image as the format defines it, and the builder's own final checks never fail |
| SimpleFs.SimpleFsContext.Init | src/MicroLogiciel/main.c:30-40 | the image is accepted if and only if it has the magic number, and the pointers are then those of the format |
| SimpleFs.SimpleFsContext.Retrieve | src/MicroLogiciel/main.c:48-63 | the search loop gives the first entry of that name, with what it points to |
| SimpleFs.RetrievesWhatWasBuilt | src/MicroLogiciel/main.c:30-63 | round trip: for any files, the image is readable, and under every path the reader gives the contents and content type of the first file that has it, or nothing if there is none |
| SimpleFs.BuildThenRetrieve | src/Tools/SimpleFSBuilder/SimpleFSBuilder.cpp:97-164 | the same of the two programs together |
| SimpleFs.ContentTypesByName | src/Tools/SimpleFSBuilder/SimpleFSBuilder.cpp:100-108 | the content type of each extension by name |
| SimpleFs.WordInImage | src/Tools/SimpleFSBuilder/SimpleFSBuilder.cpp:122 | the words of an image have their low bytes first |
| ArchivePaths.BuildFileList | src/Tools/SimpleFSBuilder/SimpleFSBuilder.cpp:42-58 | the recursion appends exactly the files of the tree, in the order of the directories |
| ArchivePaths.PathsDistinctIffOneIndexEach | src/Tools/SimpleFSBuilder/SimpleFSBuilder.cpp:33-58 | for a tree with distinct, non-empty, slash-free sibling names, archive paths are pairwise distinct if and only if no directory has two index files |
| ArchivePaths.EveryFileIsRetrievable | src/Tools/SimpleFSBuilder/SimpleFSBuilder.cpp:42-58 | from tree to server: every file of such a tree is retrieved under its path, with its contents and type |
| ArchiveTrees.HeldIsListed | src/Tools/SimpleFSBuilder/SimpleFSBuilder.cpp:33-58 | every file of a tree is in the list, with its contents, under the names of its directories and its own joined by slashes, where an index.html has no name |
| ArchiveTrees.ListedIsHeld | src/Tools/SimpleFSBuilder/SimpleFSBuilder.cpp:42-58 | and nothing else is |
| ArchiveTrees.HeldIsServed | src/Tools/SimpleFSBuilder/SimpleFSBuilder.cpp:33-58 | each file of a tree without index clashes is to be had under that path, with its contents and the content type of its extension |
| ArchiveTrees.HomePage | src/MicroLogiciel/main.c:48-63 | the root's index.html is to be had under the empty path, as text/html |
| ArchiveTrees.ServeTree | src/Tools/SimpleFSBuilder/SimpleFSBuilder.cpp:42-58 | the same of the list, the builder and the reader one after the other |
| DnsNames.PointerTarget | src/MicroLogiciel/dnsserver/dnsserver.c:54-58 | a compression pointer is its two bytes, high byte first, without the two marking bits |
| DnsNames.PointerIsName | src/MicroLogiciel/dnsserver/dnsserver.c:54-58 | a pointer to a name before it is that name |
| DnsNames.EndsIffWithinMax | src/MicroLogiciel/dnsserver/dnsserver.c:54-58 | following pointers comes to an end if and only if it does within as many of them as there are offsets |
| DnsNames.GetComponent | src/MicroLogiciel/dnsserver/dnsserver.c:50-74 | whenever it does, the loop returns the label found there, or none, and the offset after it |
| DnsNames.WalkEndsIffWithinMax | src/MicroLogiciel/dnsserver/dnsserver.c:50-74 | repeated calls come to an end if and only if they do within one more calls than there are offsets |
| DnsNames.WalkDecodesName | src/MicroLogiciel/dnsserver/dnsserver.c:50-74 | repeated calls come to an end and yield exactly the labels, on every name of sections 3.1 and 4.1.4 of RFC 1035 whose pointers lead before the run of labels they end |
| DnsNames.NameIsUnique | src/MicroLogiciel/dnsserver/dnsserver.c:50-74 | there is at most one such name at an offset |
| DnsNames.SelfPointerNeverSettles | src/MicroLogiciel/dnsserver/dnsserver.c:54-58 | a pointer to itself is followed without end |
| DnsNames.WireIsName | src/MicroLogiciel/dnsserver/dnsserver.c:60-70 | labels written one after the other and closed by a zero byte are the name that is read |
| DnsAnswers.ComponentsSplitAtDots | src/MicroLogiciel/dnsserver/dnsserver.c:76-93 | the components given one by one are the domain name split at its dots, where a final dot starts none |
| DnsAnswers.AddressForDomain | src/MicroLogiciel/dnsserver/dnsserver.c:95-134 | whenever the calls for labels come to an end, the primary address is given if and only if the first label begins the host name up to case and either suffixes are ignored or the other labels are the first components of the domain, label by label |
| DnsAnswers.AddressForName | src/MicroLogiciel/dnsserver/dnsserver.c:95-134 | the same for every well-formed query name, spelt out |
| DnsAnswers.Answer | src/MicroLogiciel/dnsserver/dnsserver.c:185-200 | the answer that is appended to a query with a well-formed name belongs to the queried name, and its last four bytes are the address chosen for that name, in order |
| Admission.AdmissionIsSafe | src/MicroLogiciel/httpserver.c:286-323 | over all interleavings: free permits, handlers and the acceptor's permit add up to max_thread_count; at most max_thread_count + 1 contexts are live; every accepted socket has exactly one owner or was closed exactly once |
| Admission.NothingIsGivenTwice | src/MicroLogiciel/httpserver.c:286-316 | a task that is to free a context has one, and there are never more permits than at first |
| Admission.WaitsOnlyForHandlers | src/MicroLogiciel/httpserver.c:310 | the acceptor waits for a permit only while all of them are with handlers that can go on |
| Admission.IdleServerHoldsNothing | src/MicroLogiciel/httpserver.c:296-323 | when nothing is in progress all permits are free, no context is live and every accepted socket was closed once |
| Admission.AcceptedCanBeServed | src/MicroLogiciel/httpserver.c:286-323 | if there are permits at all, every run can go on so that the connection just accepted gets to a handler |
| Admission.RejectedIsUndone | src/MicroLogiciel/httpserver.c:310-321 | a connection whose task cannot be created is closed, and its permit and context are given back |
| TimerSchedule.TimerTask | src/MicroLogiciel/timer.c:102-123 | for picture counts below 2^31 and positive intervals, max(1, n) exposures; exposure k ends at start + (k-1)(exposure+pause) + exposure modulo 2^32, whatever the latencies |
| TimerSchedule.LatenessDoesNotAddUp | src/MicroLogiciel/timer.c:111-122 | for any number of writes of the pin: each is late by its own latency only if and only if no wake-up before the last of them is later than the next deadline |
| TimerControl.OneTaskDrivesThePin | src/MicroLogiciel/timer.c:133-164 | in every reachable state at most one task can drive the pin, it is the one a stop request deletes, and the pin is low unless that task is exposing |
| TimerControl.StartsIffIdle | src/MicroLogiciel/timer.c:133-155 | in every reachable state, a start request makes its task waiting and the one to be stopped if and only if its settings can be parsed, the task can be created and no task is live; otherwise nothing changes |
| TimerControl.OneExposureAndBack | src/MicroLogiciel/timer.c:102-127 | a started task can raise the pin, and after its exposure the timer is exactly as before the start |
| TimerControl.RestartAlwaysWorks | src/MicroLogiciel/timer.c:133-164 | from every reachable state, a stop request and then a start request start a new task |
| TimerControl.StopReleasesTheShutter | src/MicroLogiciel/timer.c:156-164 | after a stop request the pin is low and no task is left that could raise it |

## Left out

- HttpConnection.HttpConnection.RecvNextLine: speaks of the delivered line only if no NUL byte comes before its CR LF, because the search for CR LF stops at a NUL; budget and framing are stated for all streams.  It asks for a buffer of two bytes or more; the server never uses one of fewer than 32.
- HttpRequest.ReadRequest: says what is read only if the first chunk holds a request line with two spaces, for the reason given above; for other requests it states memory safety and the state of the connection.
- HttpRequest.ReadHeaders: atoi is modelled without its overflow.
- ReplyWriter.ReplyWriter.Write: asks for fragments shorter than the buffer, as the code does by sending the untruncated length, and for a buffer of 16 bytes or more; formatting itself is a fragment of bytes.
- ReplyWriter.WriteWholeReply: says nothing about what the peer has after a failed send, which the code ignores.
- SimpleFs.Build: asks for an image of less than 2^31 bytes, the range of the builder's offsets, and takes file contents as given instead of reading files.
- SimpleFs.SimpleFsContext.Retrieve: asks that the entries of the image point into it, as those of a built image do; sending the reply is not part of it.
- DhcpServer.DhcpServer.Process: asks for a configured domain name of less than 256 bytes; its field has 32.
- DnsNames.GetComponent: asks that following pointers comes to an end within as many hops as there are offsets, which is exactly when the code returns.
- PostBody.ReadPostLine: asks that the body reader was given its place in the buffer, as it is for a POST with a Content-Length; with the one kind of request for which it may be called without (no POST, but a positive Content-Length) it would start wherever the connection's memory says, which is not modelled.
- TimerSchedule.TimerTask: takes the intervals in ticks as given; pdMS_TO_TICKS and vTaskDelayUntil are not part of this repository, and the latter is taken to compare real deadlines.
- TimerControl.OneTaskDrivesThePin: handlers are atomic steps, because a handler that fails to take a semaphore gives it all the same.
- The choice of a handler by zone, the host name check and the redirect of http requests.
- JSON parsing and formatting, and the settings stored in flash.
- The HTTP handlers' own replies, DNS header flags, and the sending of datagrams.
- Allocation failures other than those of a connection's context, and the lifetime of a context whose server reference is read after it is freed.
- The file extension rules for the names `.` and `..`.
