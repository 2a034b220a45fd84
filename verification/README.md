# A model of MicroRestD's protocol code

MicroRestD is a REST server on top of an embedded copy of libmicrohttpd, together with a Modbus RTU client.
This project models the code in both that has to be right for every byte stream and every run, and proves that
it is. Sockets, the application and the clock are nondeterministic: a read returns any bytes, a write takes any
prefix, an allocation may fail.

The modules, by subject:

- `ChunkedUpload`, `ReadBuffer`, `Unescape`, `UrlEncoded`, `FormEncoding`, `MultipartText`, `Multipart`,
  `MultipartForm`, `FormParts`: the incremental parsers. Each has a specification that reads a whole stream at once, and a class
  that works on a buffer as the source does; the main results say that the second is the first, however the stream
  was cut.
- `ChunkedResponse`: the chunked encoder, read back by the decoder of `ChunkedUpload`.
- `MemoryPool`: the two-ended allocator under the read buffer.
- `IdleLoop`: the connection's state machine without byte contents. A lexicographic order on states and buffered
  bytes makes the loop end; a trace of what the application sees follows a small protocol automaton.
- `ResponseOwnership`: reference counts of responses.
- `ConnectionLists`: the daemon's intrusive lists. Two pairs of links run through the same nodes; ghost sequences
  say what they stand for.
- `Admission`: limits of workers, of the daemon and of each address.
- `Generator`, `JsonText`, `JsonPrinter`: responses pulled from a generator, and the streaming JSON printer.
- `Crc`, `CrcTable`, `Modbus`: the CRC, its table-driven form, and the frames it protects (MODBUS over Serial
  Line V1.02, sections 2.5.1.2 and 6.2.2).
- `Common`, `CText`, `CMemory`: what C provides.

Some promises of the code's documentation hold only under a condition, and the model keeps to the code:

- A cut of a chunked body shows exactly where it parts the two line feed characters behind the `0` of its last header
  (`ResumeExactly`, `LoneZeroSplit`): the second one then stays in front of what follows the body (`ReceiveChunks`).
- A chunk of 1 MiB or more is sent with six digits, which the upload decoder rejects (`FramedReadable`).
- With an announced length of 0 and a client that waits for `100 Continue`, bytes of the next request are taken as
  body and the remaining length wraps around. This is the only case: the field `overdrawn` is set exactly if more was
  taken than announced (`Run`, `WithinAnnounced`), and `MoreThanAnnounced` is such a run.
- A cut of a value shows exactly if two percent signs in it are less than three characters apart, except at its very
  end (`CutsShowNearSigns`, `DoublePercentCut`). `ParseForm` takes all forms whose last value is such that no cut shows
  (`Loose`) and whose other values hold complete escapes (`Complete`).
- A suspended connection that is cleaned up empties the timeout list of others (`CleanupConnection`).
- The five-character form of other control characters is not a JSON escape (`MeaningIsText`), and `finish` leaves a
  lone string open (`Finish`). An `indent` between two pieces of a string makes two strings of them (`IndentSplits`).
- A part whose name holds a blank and `filename=` loses its filename or gets the text in front of it
  (`FilenameComesThrough`).
- With a minimum of 0 the generator is never asked (`Callback`).
- Text behind the last boundary of a multipart body, which RFC 2046 allows and the comment at
  libmicrohttpd/postprocessor.cpp:937-950 asks to ignore, is rejected (`EndStatus`, `ReadingTail`). The parts are
  read all the same, but the request is lost: the post processor fails, `process_request_body`
  (rest_server/rest_server.cpp:185-198) returns false, and the connection is closed before the request is served.
- "Closed" is not final within a turn of the idle loop. A turn that closes the connection leaves it in another state
  exactly in three cases (`Step`, `Reopens`): a header line without a colon whose error response can be sent
  (`RejectLine`; `OpenAgain` is such a run); arguments that do not fit, when the error response can not be sent either,
  because the request line is taken all the same; and, in a pedantic daemon, cookies that do not fit, when the error
  response can not be sent and the request lacks the host it needs, because it is then refused for that as well.

## Model

| member | source | states |
|---|---|---|
| `Crc.CalcCrc16` | ModBus/crc.cpp:4-20 | the nested loops compute the CRC of the first len bytes, for every start value, as a fold of one-bit steps |
| `Crc.BitStepInjective` | ModBus/crc.cpp:11-16 | no two register values are taken to the same one by a bit step |
| `Crc.ShiftsLinear` | ModBus/crc.cpp:10-17 | bit steps go through exclusive or |
| `Crc.CrcAffine` | ModBus/crc.cpp:4-20 | the CRC of the exclusive or of two equally long messages is the exclusive or of their CRCs, start values included |
| `Crc.CrcInjective` | ModBus/crc.cpp:4-20 | for a fixed message different start values give different CRCs |
| `Crc.CrcResidue` | ModBus/crc.cpp:4-20 | the CRC over a message and two more bytes is 0 exactly if these are its CRC, low byte first |
| `Crc.CrcFeedsBits` | ModBus/crc.cpp:4-20 | the CRC depends on the message only as a stream of bits, least significant first |
| `Crc.BurstLeavesResidue` | ModBus/crc.cpp:4-20 | a non-zero burst within 16 consecutive bits never has CRC 0 |
| `Crc.BurstDetected` | ModBus/crc.cpp:4-20 | such an error in a frame with residue 0 leaves a residue that is not 0 |
| `Crc.FeedParity` | ModBus/crc.cpp:11-16 | the register has an odd number of ones exactly if its start value and the bits fed together had: the generator is divisible by x + 1 |
| `Crc.OddErrorDetected` | ModBus/crc.cpp:4-20 | an error of an odd number of bits, wherever they are, in a frame with residue 0 leaves a residue that is not 0 |
| `CrcTable.TableIsEightShifts` | ModBus/crc.cpp:22-57 | all 256 entries of both tables are eight bit steps of their index |
| `CrcTable.TableStepIsByteStep` | ModBus/crc.cpp:59-65 | one table look-up does what eight bit steps do, for every register and byte |
| `CrcTable.TableCrcIsCrc16` | ModBus/crc.cpp:59-65 | folding the table step over any bytes from any start gives the bitwise CRC |
| `CrcTable.CalcCrc16Fly` | ModBus/crc.cpp:59-65 | the update through the pointer is one byte step, and a null pointer changes nothing |
| `Modbus.TotalLength` | ModBus/ModbusManager.cpp:250-255 | the length is that of the gathered bytes, null and empty vectors left out |
| `Modbus.CreateModBusADU` | ModBus/ModbusManager.cpp:245-289 | the length is data + 4 in any case; when it fits, exactly address, function, data and CRC low byte first are written, otherwise nothing; in a buffer of at most 256 bytes, the size the caller passes, the frame has residue 0 |
| `Modbus.ModbusObject.DataHandling` | ModBus/ModbusObject.cpp:16-103 | accepts exactly the answers with matching fields, matching CRC and enough bytes; the answer is cleared in any case, and the handler gets exactly the payload |
| `Modbus.NormalAnswerExactly` | ModBus/ModbusManager.cpp:291-303 | among answers of the calculated length the accepted ones are exactly slave, function, count, payload and CRC |
| `Modbus.SentAnswerAccepted` | ModBus/ModbusObject.cpp:16-103 | every well-formed answer with matching fields is accepted and gives back its payload |
| `Modbus.FrameResidue` | ModBus/ModbusObject.cpp:38-55 | up to 257 bytes, ending in its CRC and having residue 0 are the same for a frame |
| `Modbus.BurstRejected` | ModBus/ModbusObject.cpp:38-55 | an accepted answer hit by a burst within 16 bits is accepted for no request at all |
| `Modbus.OddErrorRejected` | ModBus/ModbusObject.cpp:38-55 | an accepted answer with an odd number of bits flipped is accepted for no request at all |
| `Modbus.StandardExample` | ModBus/ModbusManager.cpp:277-280 | the worked example of the standard: 41 and 12 hexadecimal follow the bytes 2 and 7 |
| `Modbus.RequestResidue` | ModBus/ModbusManager.cpp:277-280 | a request frame has residue 0 if its body is at most 255 bytes, the most the CRC's length argument can say |
| `CText.SpellsValue` | libmicrohttpd/connection.cpp:1562-1564 | what a text of hexadecimal digits denotes, digit by digit in the order 0 to f and in any mixture of cases, is what the decoder computes from it; no other text is all digits |
| `CText.StrToUlReads` | libmicrohttpd/connection.cpp:1562-1564 | white space, a sign, the mark 0x, digits and what follows: the number read for every such text, a minus counting down from 2 to the 64, and whether that is all |
| `ChunkedUpload.Resume` | libmicrohttpd/connection.cpp:1482-1650 | decoding what is held and then what arrives is decoding both at once, for all byte streams and every state of the decoder, except that a line feed character may be left over |
| `ChunkedUpload.ResumeExactly` | libmicrohttpd/connection.cpp:1482-1650 | exactly when: for all streams, states and cuts, nothing is left over unless the cut parts the two line feed characters behind the "0" of the last header |
| `ChunkedUpload.LoneZeroSplit` | libmicrohttpd/connection.cpp:1556-1576 | an input on which it is: "0" CR in one segment and LF in the next |
| `ChunkedUpload.DecodeBody` | libmicrohttpd/connection.cpp:1482-1650 | a well-formed chunked body, with sizes of up to five digits of either case, decodes to the data of its chunks in order (section 4.1 of RFC 7230) |
| `ChunkedUpload.AnyBreakRead` | libmicrohttpd/connection.cpp:1506-1585 | behind a header and behind a chunk two line feed characters of either kind will do, or one that none follows |
| `ChunkedUpload.NoBreakRead` | libmicrohttpd/connection.cpp:1506-1519 | a chunk is rejected on the spot exactly if something else than a line feed character follows it |
| `ChunkedUpload.QuiescentDelivered` | libmicrohttpd/connection.cpp:1482-1650 | when nothing can be done with the held bytes, what was delivered is the decoding of all that was received |
| `ChunkedUpload.Upload.Run` | libmicrohttpd/connection.cpp:2424-2443 | over any arrivals: a body in chunks comes to the decoding of all that arrived, rejected exactly if that is malformed, and left is what the arrival that ended it held back and all that came later; any other body to all that was announced and arrived, exactly unless none was announced, the client was told to continue and bytes are there |
| `ChunkedUpload.ReceiveChunks` | libmicrohttpd/connection.cpp:1482-1650 | a well-formed body in chunks is taken whole from any arrivals, never rejected, and what follows it stays in the buffer; in front of it stays a line feed character exactly if the last header is "0" and an arrival ends between its two line feed characters |
| `ChunkedUpload.LeftExactly` | libmicrohttpd/connection.cpp:1556-1585 | what the arrival that ends a well-formed body holds back, and all that comes later, is what follows the body, with exactly that exception |
| `ChunkedUpload.Upload.CallHandler` | libmicrohttpd/connection.cpp:1610-1642 | each call offers at least one byte and takes a prefix of what is offered |
| `ChunkedUpload.Upload.ReadBoundary` | libmicrohttpd/connection.cpp:1540-1590 | a chunk header is waited for, rejected or read as the whole stream demands |
| `ChunkedUpload.Upload.Deliver` | libmicrohttpd/connection.cpp:1527-1539 | no call crosses a chunk boundary |
| `ChunkedUpload.Upload.DeliverPlain` | libmicrohttpd/connection.cpp:1592-1644 | a body with a known length is offered up to that length; with nothing remaining the subtraction wraps around, and overdrawn means that more was handed out than announced |
| `ChunkedUpload.Upload.ProcessRequestBody` | libmicrohttpd/connection.cpp:1482-1650 | the loop keeps received = delivered + buffered, and leaves nothing it could deliver |
| `ChunkedResponse.ToHex` | libmicrohttpd/connection.cpp:487-490 | the printed chunk size reads back as the number |
| `ChunkedResponse.HexWidth` | libmicrohttpd/connection.cpp:485-490 | a number has at most w digits exactly if it is below 16 to the w |
| `ChunkedResponse.FramedReadable` | libmicrohttpd/connection.cpp:485-493 | the decoder reads a chunk header exactly if the chunk is smaller than 1 MiB |
| `ChunkedResponse.LedgerDone` | libmicrohttpd/connection.cpp:407-498 | a complete body on the wire is well-formed chunks and one "0" CRLF, its length counter is right, and the upload decoder gives back the reader's stream |
| `ChunkedResponse.ChunkedSender.WriteFrame` | libmicrohttpd/connection.cpp:485-497 | header, data and line break are put in front of and behind the data in the buffer |
| `ChunkedResponse.ChunkedSender.AllocateWriteBuffer` | libmicrohttpd/connection.cpp:417-436 | the largest half, quarter and so on of the pool size that is free, and none only if the pool is below 256 bytes or fewer than 255 are free |
| `ChunkedResponse.ChunkedSender.NextContent` | libmicrohttpd/connection.cpp:438-463 | content already in the response is used first, then the reader is asked for no more than fits |
| `ChunkedResponse.ChunkedSender.TryReadyChunkedBody` | libmicrohttpd/connection.cpp:407-498 | bytes become the next chunk, the end of the stream becomes the end mark, an error closes; nothing is sent and wire + unsent stay the frames of the stream |
| `ChunkedResponse.ChunkedSender.DoWrite` | libmicrohttpd/connection.cpp:1722-1765 | a partial write takes a prefix of what is unsent |
| `ChunkedResponse.ChunkedSender.HandleWrite` | libmicrohttpd/connection.cpp:2202-2211 | the next chunk is due when all is sent, and the body counts as sent exactly after its end mark |
| `ChunkedResponse.ChunkedSender.ReadBack` | libmicrohttpd/connection.cpp:407-498 | for pools of up to 2 MiB a sent body is read back by the upload decoder, whatever follows on the wire |
| `MemoryPool.Rounding` | libmicrohttpd/memorypool.cpp:52 | rounding up in 64 bits is right, or gives 0 for a number that is not 0 |
| `MemoryPool.NoWrap` | libmicrohttpd/memorypool.cpp:217-258 | the sums and differences of reallocation do not wrap around |
| `MemoryPool.Pool.Allocate` | libmicrohttpd/memorypool.cpp:174-198 | succeeds exactly if the rounded size fits between the two ends; the new block is apart from all live ones, and a failure changes nothing |
| `MemoryPool.Pool.Reallocate` | libmicrohttpd/memorypool.cpp:217-258 | for every live block: resized in place or copied to the front, its first min(old, new) bytes kept, every other block untouched, what the last block gives back is zeroed, and a failure changes nothing |
| `MemoryPool.Pool.Reset` | libmicrohttpd/memorypool.cpp:271-290 | only the kept block is left, at the start, or none; all behind it is cleared |
| `ReadBuffer.LinesOfArrivals` | libmicrohttpd/connection.cpp:1130-1166 | cutting into lines what is left and what arrives is cutting both at once, for all byte streams |
| `ReadBuffer.AllHandedOut` | libmicrohttpd/connection.cpp:1130-1166 | when no line is left, the lines handed out and the rest are the cutting of all that was received |
| `ReadBuffer.EndsWithLf` | libmicrohttpd/connection.cpp:1139-1166 | a line ends with a line feed |
| `ReadBuffer.EndsWithCrLf` | libmicrohttpd/connection.cpp:1139-1166 | a carriage return and a line feed are one end |
| `ReadBuffer.EndsWithCr` | libmicrohttpd/connection.cpp:1139-1166 | so is a carriage return that something else follows |
| `ReadBuffer.NotEnded` | libmicrohttpd/connection.cpp:1139-1152 | without one of these no line is there |
| `ReadBuffer.SentLines` | libmicrohttpd/connection.cpp:1130-1166 | lines sent with either line break are cut back into exactly these lines |
| `ReadBuffer.Receiver.ReceiveHead` | libmicrohttpd/connection.cpp:1130-1166 | over any arrivals the lines handed out are those that were sent, all of them unless buffer and pool are full |
| `ReadBuffer.Receiver.TryGrowReadBuffer` | libmicrohttpd/connection.cpp:616-635 | growing, in place or by copying, loses no byte |
| `ReadBuffer.Receiver.DoRead` | libmicrohttpd/connection.cpp:1663-1710 | received bytes are appended inside the buffer |
| `ReadBuffer.Receiver.HandleRead` | libmicrohttpd/connection.cpp:2028-2039 | the buffer grows exactly if there is little room and the pool allows it, and all that the socket gives is read, or the buffer is full |
| `ReadBuffer.Receiver.ScanLine` | libmicrohttpd/connection.cpp:1139-1142 | the scan stops at the first line break or the last byte |
| `ReadBuffer.Receiver.GetNextHeaderLine` | libmicrohttpd/connection.cpp:1130-1166 | a line is handed out exactly if one is complete, zero-terminated in place, and the buffer starts behind it; too big exactly if the buffer is full and the pool has no room |
| `ConnectionLists.Dll.Insert` | libmicrohttpd/internal.h:1293-1302 | the links of the list stand for the element in front of the old sequence |
| `ConnectionLists.Dll.Remove` | libmicrohttpd/internal.h:1314-1326 | the links stand for the old sequence without the element, whose own links are null |
| `ConnectionLists.Xdll.Insert` | libmicrohttpd/internal.h:1338-1347 | the same for the second pair of links of the same nodes |
| `ConnectionLists.Xdll.Remove` | libmicrohttpd/internal.h:1359-1371 | an element that is not on the list but has null links makes the list lose both ends |
| `ConnectionLists.Daemon.AddConnection` | libmicrohttpd/daemon.cpp:1233-1521 | refused at the limit, by the checks before the insertion or when the thread fails, each time with all lists as before; otherwise at the heads of its lists |
| `ConnectionLists.Daemon.Suspend` | libmicrohttpd/daemon.cpp:1553-1603 | moves an active connection to the suspended ones and off its timeout list |
| `ConnectionLists.Daemon.Resume` | libmicrohttpd/daemon.cpp:1615-1638 | only sets flags, and the daemon's flag with the connection's |
| `ConnectionLists.Daemon.ResumeSuspended` | libmicrohttpd/daemon.cpp:1648-1701 | exactly the connections marked as resuming become active, in reverse order, at the heads of the right lists, and none is forgotten |
| `ConnectionLists.Daemon.UpdateLastActivity` | libmicrohttpd/connection.cpp:1995-2016 | moves the connection to the head of the normal list, or leaves the lists; with a monotone clock that list stays ordered by activity |
| `ConnectionLists.Daemon.SetTimeout` | libmicrohttpd/connection.cpp:2858-2898 | moves an active connection to the list of its new timeout, and leaves a suspended one on none |
| `ConnectionLists.Daemon.CleanupConnection` | libmicrohttpd/connection.cpp:2249-2286 | keeps the invariant exactly if the connection is not suspended or the list of its timeout is empty; otherwise that list loses its ends |
| `ConnectionLists.Daemon.CloseConnection` | libmicrohttpd/daemon.cpp:4142-4163 | moves the connection to the clean-up list and keeps the order of the normal list |
| `ConnectionLists.Daemon.CleanupConnections` | libmicrohttpd/daemon.cpp:1892-1964 | frees exactly the dead connections, and the counter loses as many |
| `ConnectionLists.RecentWithout` | libmicrohttpd/internal.h:1359-1371 | a list ordered by activity stays so without one element |
| `ConnectionLists.WithoutElems` | libmicrohttpd/internal.h:1314-1326 | removing an element leaves exactly the others |
| `Admission.DivideLimit` | libmicrohttpd/daemon.cpp:3979-4056 | the limits of the workers add up to the limit of the daemon and differ by at most one |
| `Admission.EveryoneAskedIff` | libmicrohttpd/daemon.cpp:1183-1194 | the probe reaches every worker exactly if the unsigned sum does not wrap around, or wraps at a multiple of their number |
| `Admission.EveryoneIsAsked` | libmicrohttpd/daemon.cpp:3020-3029 | for every pool a daemon starts with and every socket the probe asks every worker |
| `Admission.StartDaemon` | libmicrohttpd/daemon.cpp:3020-3029 | a pool whose records would exceed an unsigned number of bytes is refused |
| `Admission.KeysApart` | libmicrohttpd/daemon.cpp:265-300 | two addresses are counted together exactly if they are of the same version and the same; ports do not matter |
| `Admission.KeysCount` | libmicrohttpd/daemon.cpp:265-300 | what is counted for an address is the number of connections from it |
| `Admission.IpLimits.Add` | libmicrohttpd/daemon.cpp:315-369 | below the limit the count goes up; addresses of other families pass through; the counts stay those of the live connections |
| `Admission.IpLimits.Del` | libmicrohttpd/daemon.cpp:379-422 | neither panic is reached for an address that was added, and a count of 0 is removed |
| `Admission.Server.AddTo` | libmicrohttpd/daemon.cpp:1233-1521 | taken exactly if the socket can be watched, the worker has room, the address is below its limit and no later step fails; each later failure gives the count back |
| `Admission.Server.AddConnection` | libmicrohttpd/daemon.cpp:1183-1204 | a connection is refused without being tried exactly if every worker is full; otherwise the first worker with room decides, counted from the one the socket number falls on and around |
| `Admission.Server.Cleanup` | libmicrohttpd/daemon.cpp:1892-1964 | freeing a connection keeps the counts, without a panic |
| `Admission.TotalBounded` | libmicrohttpd/daemon.cpp:3979-4056 | workers within their limits hold no more connections than the limits' sum |
| `Admission.Server.PeersWithinLimit` | libmicrohttpd/daemon.cpp:315-369 | with a limit set, no more connections than that come from any one address, over all workers |
| `Admission.Server.TotalWithinLimit` | libmicrohttpd/daemon.cpp:1233-1247 | all workers together never hold more connections than the daemon's limit |
| `IdleLoop.NoticesMatchRequests` | libmicrohttpd/connection.cpp:276-294 | in every run there are as many notices as requests begun, one fewer while a request is open |
| `IdleLoop.NothingAfterNotice` | libmicrohttpd/connection.cpp:276-294 | whatever follows a notice of completion is the first call of a new request |
| `IdleLoop.FinalAfterWholeBody` | libmicrohttpd/connection.cpp:2495-2518 | where a length other than 0 was announced, the first final call comes after exactly so many bytes |
| `IdleLoop.FinalAfterLastChunk` | libmicrohttpd/connection.cpp:2495-2518 | where none was announced, the first final call follows right behind the last chunk of the body |
| `IdleLoop.MoreThanAnnounced` | libmicrohttpd/connection.cpp:2393-2443 | a run with Content-Length 0 and 100 Continue in which 60 bytes are taken as its body |
| `IdleLoop.OpenAgain` | libmicrohttpd/connection.cpp:1803-1814 | a run in which a line without a colon closes the connection, and an error response is on its way all the same |
| `IdleLoop.Connection.RejectLine` | libmicrohttpd/connection.cpp:1803-1814 | the notice is given and the connection closed; then the error response is set, and sent exactly if its header can be built |
| `IdleLoop.Connection.Close` | libmicrohttpd/connection.cpp:276-294 | a notice is given exactly if the application knows of the request |
| `IdleLoop.Connection.TransmitError` | libmicrohttpd/connection.cpp:934-970 | whatever the state, what follows is sending the response that is set, or the end |
| `IdleLoop.Connection.QueueResponse` | libmicrohttpd/connection.cpp:2917-2952 | a response is taken only if none is set and the state allows one; an early one for an upload ends reading |
| `IdleLoop.Connection.CallHandler` | libmicrohttpd/connection.cpp:1448-1470 | no call once a response is set; a first call before the body, a final one after it |
| `IdleLoop.Connection.HandleRequest` | rest_server/rest_server.cpp:491-521 | the object is made at the first call; a final call finds it and exactly the announced length delivered, for a body in chunks the last chunk read, or more only if none was announced and the client was told to continue |
| `IdleLoop.Connection.BodyCall` | libmicrohttpd/connection.cpp:1610-1644 | every body call offers bytes to an existing object, within the remaining length unless none was announced and the client was told to continue |
| `IdleLoop.Connection.OfferBody` | libmicrohttpd/connection.cpp:1482-1650 | the loop over the buffer ends and keeps taken + remaining equal to the announced length; a body that is not chunked is offered in one call, up to what remains, and what is taken leaves the buffer |
| `IdleLoop.TableDescends` | libmicrohttpd/connection.cpp:2298-2671 | every entry of the table of transitions goes down, or stays in the middle of headers or footers; what stops can wait |
| `IdleLoop.Connection.GetNextHeaderLine` | libmicrohttpd/connection.cpp:1130-1166 | without a line nothing changes, unless the buffer is full and can not grow: then the error response takes over |
| `IdleLoop.Connection.ParseInitialLine` | libmicrohttpd/connection.cpp:1396-1440 | goes on to the headers exactly if the line has a space; arguments that do not fit leave an error response |
| `IdleLoop.Connection.ProcessBrokenLine` | libmicrohttpd/connection.cpp:1843-1905 | a line is accepted exactly if it fits and is empty, folded or has a colon; a closed connection is opened again exactly for a line without a colon whose error response can be sent |
| `IdleLoop.Connection.ParseConnectionHeaders` | libmicrohttpd/connection.cpp:1916-1984 | how much body is announced, and when a response is set already |
| `IdleLoop.Connection.Proceed` | libmicrohttpd/connection.cpp:2393-2415 | waits for 100 Continue, goes to the body or past it; the client counts as told to continue exactly in the first case |
| `IdleLoop.Connection.AfterBody` | libmicrohttpd/connection.cpp:2424-2443 | the body is over exactly if nothing remains, or nothing more can come |
| `IdleLoop.Connection.StepFootersReceived` | libmicrohttpd/connection.cpp:2495-2518 | sends the headers, waits for a response or closes, and exactly when |
| `IdleLoop.Connection.StepFootersSent` | libmicrohttpd/connection.cpp:2591-2662 | one notice if the application knew of the request; the next request or the end, and exactly when |
| `IdleLoop.Connection.Step` | libmicrohttpd/connection.cpp:2317-2671 | every turn leads to the one state that the fields and what is met demand, where bytes of a body are offered to one of four, and follows the table of transitions; one that goes on lowers the state, or keeps it and takes bytes, and every other one ends in a state the event loop can wait in; one that closes the connection leaves it open exactly in the three cases named above |
| `IdleLoop.Connection.HandleIdle` | libmicrohttpd/connection.cpp:2298-2740 | the loop ends from every state and buffer, after turns that each lead to the state that the fields and what is met there demand; a dead connection has given back the object, a time-out closes, and otherwise the state is where the last turn led, unless the buffer is full or the stream has ended in front of footers |
| `IdleLoop.Connection.KeepsWaiting` | libmicrohttpd/connection.cpp:2672-2682 | without a time-out a connection that waits for a request, with room and nothing received, goes on waiting for bytes |
| `IdleLoop.Connection.MakeRoom` | libmicrohttpd/connection.cpp:982-1060 | a full buffer that can not grow is answered with an error, in the body only with a thread of its own |
| `IdleLoop.Connection.UpdateEventLoopInfo` | libmicrohttpd/connection.cpp:982-1115 | ends, and asks for exactly the event the state waits for; the state changes only for a full buffer that can not grow, or the end of the stream in front of footers |
| `IdleLoop.Connection.HandleRead` | libmicrohttpd/connection.cpp:2028-2085 | the buffer grows by what the socket gave and the room allows; an error or the end closes, with the notice due |
| `IdleLoop.Connection.HandleWrite` | libmicrohttpd/connection.cpp:2091-2238 | each part of the response gives way to the next exactly when all of it is written; a failure closes, with the notice due |
| `IdleLoop.Connection.Serve` | libmicrohttpd/daemon.cpp:767-946 | over any number of rounds: each round follows from what the one before left, what the sockets do and what the turns meet; no call is out of order, the final one comes after the announced length or the last chunk, and a dead connection got one notice per request and left no object behind |
| `ResponseOwnership.Response.Release` | libmicrohttpd/response.cpp:496-521 | the owner that brings the count to 0, and no other, frees the response, its headers and its reader |
| `ResponseOwnership.Response.Acquire` | libmicrohttpd/response.cpp:525-530 | one owner more |
| `ResponseOwnership.Library.CountsOwners` | libmicrohttpd/response.cpp:424-461 | the count is creator references plus connections holding the response, and freed means neither is left |
| `ResponseOwnership.Library.NoneDangling` | libmicrohttpd/connection.cpp:2604-2605 | no connection holds a freed response |
| `ResponseOwnership.Library.Queue` | libmicrohttpd/connection.cpp:2917-2952 | a refused response gets no owner, an accepted one exactly one |
| `ResponseOwnership.Library.Respond` | rest_server/rest_server.cpp:209-214 | the answer is freed at once exactly if it was refused |
| `ResponseOwnership.Library.TransmitError` | libmicrohttpd/connection.cpp:934-970 | a response already set stays, and the new one is freed |
| `ResponseOwnership.Library.Drop` | libmicrohttpd/connection.cpp:2253-2257 | the connection gives up its reference, and the response is freed exactly if nobody else holds it |
| `ResponseOwnership.Library.FreeConnection` | libmicrohttpd/daemon.cpp:1946-1950 | freeing a connection keeps all counts |
| `Unescape.EscapeIsStrToUl` | libmicrohttpd/internal.cpp:162-172 | what the escape stands for is what strtoul reads, signs and white space included |
| `Unescape.UnescapePlus` | libmicrohttpd/internal.cpp:124-130 | every plus becomes a space, in place, and nothing else changes |
| `Unescape.HttpUnescape` | libmicrohttpd/internal.cpp:143-182 | decoding in place gives the decoded string, zero-terminated, and leaves all behind it |
| `Unescape.UnescapedConcat` | libmicrohttpd/internal.cpp:143-182 | decoding goes through a cut after complete escapes |
| `Unescape.PlainReady` | libmicrohttpd/postprocessor.cpp:427-443 | a cut escape that is held back decodes to nothing |
| `Unescape.HeldBehind` | libmicrohttpd/postprocessor.cpp:427-443 | behind complete escapes the same end is held back |
| `Unescape.CutsShowNearSigns` | libmicrohttpd/postprocessor.cpp:427-443 | every cut of a value leaves its decoding as it is exactly if no two percent signs are less than three characters apart, but for two at its very end |
| `Unescape.DoublePercentCut` | libmicrohttpd/postprocessor.cpp:427-443 | a value on which a cut shows: two signs in a row |
| `UrlEncoded.FeedIsPairs` | libmicrohttpd/postprocessor.cpp:351-495 | reading character by character and splitting at the first = and & give the same pairs |
| `UrlEncoded.ReadyAdvance` | libmicrohttpd/postprocessor.cpp:398-454 | decoding piece by piece, with cut escapes held back, is decoding at once |
| `UrlEncoded.PostProcessor.Iterate` | rest_server/rest_server.cpp:288-304 | a fragment at offset 0 starts the parameter, any other continues it where the last ended |
| `UrlEncoded.PostProcessor.StepKey` | libmicrohttpd/postprocessor.cpp:376-397 | a key is collected over segments and decoded at its =; an error only if it does not fit |
| `UrlEncoded.PostProcessor.GatherValue` | libmicrohttpd/postprocessor.cpp:398-443 | what can be decoded now and what is held make up the value so far |
| `UrlEncoded.PostProcessor.StepValue` | libmicrohttpd/postprocessor.cpp:398-480 | a value is handed over in fragments and ended at & or a line break |
| `UrlEncoded.PostProcessor.Process` | libmicrohttpd/postprocessor.cpp:351-495 | a segment of a well-formed body takes no error branch and advances the parse by exactly its bytes |
| `UrlEncoded.PostProcessor.Destroy` | libmicrohttpd/postprocessor.cpp:1170-1191 | a value without its end is ended, and nothing of it is lost |
| `UrlEncoded.ParseForm` | libmicrohttpd/postprocessor.cpp:351-495 | for every well-formed body every cutting into segments gives the map of decoding the body at once |
| `FormEncoding.EncodedPlain` | libmicrohttpd/internal.cpp:143-182 | decoding undoes percent encoding, for all bytes and every way to encode them: digits of either case, also of characters that need none |
| `FormEncoding.FormRoundTrip` | libmicrohttpd/postprocessor.cpp:351-495 | the pairs of a form, however encoded, are those that were sent, keys cut at a zero byte |
| `FormEncoding.ReceiveForm` | libmicrohttpd/postprocessor.cpp:351-495 | a form, however encoded, that arrives in any segments gives back what was sent |
| `MultipartText.StepStable` | libmicrohttpd/postprocessor.cpp:837-1124 | what the parser does with the bytes at hand does not depend on the bytes to come |
| `MultipartText.ValueReads` | libmicrohttpd/postprocessor.cpp:710-793 | bytes at which no delimiter can start may be handed out early, whatever follows |
| `MultipartText.NotAcross` | libmicrohttpd/postprocessor.cpp:710-793 | a delimiter does not start in a value and end behind it |
| `MultipartText.ReadingPreamble` | libmicrohttpd/postprocessor.cpp:538-574 | what stands before the first boundary is skipped, byte by byte or up to the next dash |
| `MultipartText.ReadingHeaderLf` | libmicrohttpd/postprocessor.cpp:645-690 | a line feed alone ends a header line as well |
| `MultipartText.ReadingHeaders` | libmicrohttpd/postprocessor.cpp:645-690 | each header line is read once, and the empty line ends them |
| `MultipartText.ReadingParts` | libmicrohttpd/postprocessor.cpp:837-1124 | written parts read as these parts, each with the bytes between its empty line and the next delimiter |
| `MultipartText.ReadingTail` | libmicrohttpd/postprocessor.cpp:930-935 | behind the last boundary one line break is accepted and any other text is rejected |
| `MultipartText.BodyReads` | libmicrohttpd/postprocessor.cpp:837-1124 | a well-formed body reads as the headers and values that were written, with anything before it (section 5.1.1 of RFC 2046) |
| `Multipart.ScanValue` | libmicrohttpd/postprocessor.cpp:726-768 | the scan excludes the delimiter everywhere before its result, and stops at it or where too few bytes are left |
| `Multipart.TryGetValue` | libmicrohttpd/postprocessor.cpp:592-624 | finds the quoted value of the first stand-alone key, unless the field is known already |
| `Multipart.TryMatchHeader` | libmicrohttpd/postprocessor.cpp:507-523 | finds the prefix anywhere in the line, unless the field is known already |
| `Multipart.PostProcessor.SkipBreaks` | libmicrohttpd/postprocessor.cpp:869-925 | line breaks and dashes are taken or rejected as in the whole body, also when cut in two |
| `Multipart.PostProcessor.FindBoundary` | libmicrohttpd/postprocessor.cpp:538-574 | skips to the next dash or takes the boundary; never out of memory |
| `Multipart.PostProcessor.ProcessHeaders` | libmicrohttpd/postprocessor.cpp:645-690 | rejects a line only if it can not fit the buffer, and waits only with room left |
| `Multipart.PostProcessor.CheckMultipart` | libmicrohttpd/postprocessor.cpp:978-1012 | a value begins unless the headers announce nested parts |
| `Multipart.PostProcessor.ProcessValue` | libmicrohttpd/postprocessor.cpp:710-793 | never out of memory; hands over what can not belong to a delimiter, and waits only with less than a delimiter |
| `Multipart.PostProcessor.HandOver` | libmicrohttpd/postprocessor.cpp:772-792 | the text of the value grows by these bytes, at the right offset, in at least one call |
| `Multipart.PostProcessor.Process` | libmicrohttpd/postprocessor.cpp:837-1124 | the loop ends, all of the segment is in, and neither error branch for a full buffer is reached: a failure is one of the body |
| `Multipart.ParseBody` | libmicrohttpd/postprocessor.cpp:837-1124 | for every byte stream and every cutting into segments the parts and the verdict are those of reading the stream at once; each part got at least one call, with offsets that add up |
| `MultipartForm.ReceiveForm` | libmicrohttpd/postprocessor.cpp:837-1124 | a written form that arrives in any segments, handed to the iterator call by call, leaves the values of its parts in the request |
| `MultipartForm.HttpValueCompare` | rest_server/rest_server.cpp:348-365 | white space and letter case aside, the value is the pattern up to a semicolon or the end |
| `MultipartForm.Request.PostIterator` | rest_server/rest_server.cpp:288-304 | what one call changes in the parameters of the request |
| `MultipartForm.CallsMakeEntry` | rest_server/rest_server.cpp:288-304 | the calls for a part set the parameter to its whole value, whatever an earlier part of that name left |
| `MultipartForm.PartsMakeEntries` | rest_server/rest_server.cpp:288-304 | the request is the same for every delivery of the parts |
| `MultipartForm.LastWins` | rest_server/rest_server.cpp:288-304 | each name has the value of the last part with it, and there are no other names |
| `MultipartForm.FormArrives` | libmicrohttpd/postprocessor.cpp:837-1124 | a written form, cut anywhere, leaves the parameters of its parts; the parse ends nicely exactly without text behind it |
| `FormParts.NameRead` | libmicrohttpd/postprocessor.cpp:592-624 | the name is the quoted text behind name=, whatever it holds and whatever follows |
| `FormParts.FilenameRead` | libmicrohttpd/postprocessor.cpp:592-624 | what is read as the filename, also where the name holds the key |
| `FormParts.DispositionTaken` | libmicrohttpd/postprocessor.cpp:645-690 | the line that names a part, with its prefix in any letter case, gives the name and the filename |
| `FormParts.TypeTaken` | libmicrohttpd/postprocessor.cpp:645-690 | the line with the type gives the type and nothing else |
| `FormParts.EncodingTaken` | libmicrohttpd/postprocessor.cpp:645-690 | the line with the transfer encoding gives the encoding and nothing else |
| `FormParts.FilenameComesThrough` | libmicrohttpd/postprocessor.cpp:592-624 | the name always comes through, the filename exactly if the name holds no blank with filename= behind it, but for one odd filename |
| `FormParts.FieldsWritten` | libmicrohttpd/postprocessor.cpp:645-690 | all lines of a part together give what they say |
| `FormParts.ReceiveParts` | libmicrohttpd/postprocessor.cpp:837-1124 | a form written by a client, cut anywhere, leaves each name with the value of its last part in the request, up to a part with an encoding that changes bytes |
| `FormParts.SentIsLast` | rest_server/rest_server.cpp:288-304 | where all encodings carry the values, the names in the request are exactly those written, each with its last value |
| `JsonText.ReadTokens` | rest_server/json_builder.h:72-167 | the reader of RFC 8259 tokens undoes the printer's tokens, for every tree |
| `JsonText.IntTextRead` | rest_server/json_builder.h:105-111 | a printed integer reads back |
| `JsonPrinter.EncodedCharFed` | rest_server/json_builder.cpp:26-43 | what a reader makes of each encoded character |
| `JsonPrinter.MeaningIsText` | rest_server/json_builder.cpp:26-43 | a string comes back as it was exactly if it has no control character but the five named ones |
| `JsonPrinter.MeaningConcat` | rest_server/json_builder.h:95-103 | appended pieces are the joined string |
| `JsonPrinter.JsonBuilder.NormalizeMode` | rest_server/json_builder.h:177-197 | an open string is closed, a comma put exactly between values and an indentation exactly where one was asked for |
| `JsonPrinter.JsonBuilder.Object` | rest_server/json_builder.h:72-77 | one token, separated from what comes before, at the end of the buffer |
| `JsonPrinter.JsonBuilder.Array` | rest_server/json_builder.h:79-84 | one token, separated from what comes before, at the end of the buffer |
| `JsonPrinter.JsonBuilder.Key` | rest_server/json_builder.h:86-93 | the key and a colon |
| `JsonPrinter.JsonBuilder.Value` | rest_server/json_builder.h:95-103 | a new string, or a longer one when appended to one still open |
| `JsonPrinter.JsonBuilder.ValueInt` | rest_server/json_builder.h:105-111 | the number as one token |
| `JsonPrinter.JsonBuilder.ValueBool` | rest_server/json_builder.h:113-122 | the truth value as one token |
| `JsonPrinter.JsonBuilder.ValueNull` | rest_server/json_builder.h:124-129 | null as one token |
| `JsonPrinter.JsonBuilder.Indent` | rest_server/json_builder.h:141-147 | no token, now or later, and no character now but the end of an open string |
| `JsonPrinter.JsonBuilder.MakeIndent` | rest_server/json_builder.h:187-197 | a blank behind a colon, else a new line as deep as what is open; no token |
| `JsonPrinter.JsonBuilder.Close` | rest_server/json_builder.h:149-158 | the closing character of what was opened last; nothing when nothing is open |
| `JsonPrinter.JsonBuilder.Finish` | rest_server/json_builder.h:160-167 | closes everything open, each bracket indented if that is asked for, and ends the line; nothing leaves the buffer; a lone string stays open, and the text does not read |
| `JsonPrinter.JsonBuilder.DiscardCurrentPrefix` | rest_server/json_builder.cpp:17-24 | exactly what leaves the buffer is gone, and nothing that was printed changes |
| `JsonPrinter.MeaningIsTree` | rest_server/json_builder.cpp:26-43 | a tree comes back as it was exactly if all its strings and keys do |
| `JsonPrinter.IndentSplits` | rest_server/json_builder.h:95-103 | an indentation between two pieces of a string makes two strings of them |
| `JsonPrinter.PrintPretty` | rest_server/json_builder.h:72-197 | with an indentation asked for everywhere the text is laid out line by line, one blank for each open bracket, a value behind its key |
| `JsonPrinter.ControlForm` | rest_server/json_builder.cpp:33-37 | a control character without a name becomes the letter u and the four digits of its code |
| `JsonPrinter.Print` | rest_server/json_builder.h:72-197 | with strings in any pieces, parts of the text sent at any point and indentations between values, what was sent and what is left in the buffer together read back as the tree, for every object and array |
| `Generator.Request.Callback` | rest_server/rest_server.cpp:306-327 | hands out bytes in order, as many as there are up to max; fewer than the minimum only from an ended generator; asks only while there is less than the minimum; the end only after all was handed out, unless the minimum is 0 |
| `Generator.Request.FillUp` | rest_server/rest_server.cpp:310-313 | asks until there is enough or the generator has ended, not once more, and ends itself |
| `Generator.Sender.Conserved` | libmicrohttpd/connection.cpp:340-394 | sent, windowed and unread bytes make up what was generated |
| `Generator.Sender.TryReadyNormalBody` | libmicrohttpd/connection.cpp:340-394 | the window is filled again only once it is all sent; closing means all of the stream was sent |
| `Generator.Sender.HandleWrite` | libmicrohttpd/connection.cpp:2156-2198 | a write sends exactly what the socket accepts of the window, from the position on |

## Left out

- Sockets, select and poll, threads, mutexes, pipes, TLS and epoll: reads, writes and scheduling are nondeterministic
  steps, and what a mutex guards is one step.
- Multipart.PostProcessor.CheckMultipart: the model stops where a part is made of parts.
- ChunkedUpload.Upload.ProcessRequestBody: the zero byte written over a consumed line break is not modelled, because
  those bytes are not read again.
- ChunkedResponse.ChunkedSender.ReadBack: a response that several connections send at once is not modelled; the total
  size is kept in the response, so one of them may learn it from another and stop before its end mark.
- MemoryPool.Pool.Reset: a size to keep that passes the end of the pool is not modelled, because the code would clear a
  negative number of bytes.
- MemoryPool.NoWrap: stated for positions and sizes below 2 to the 63, because no pool can be larger.
- IdleLoop.Connection.TransmitError: an allocation of the error response that fails is not modelled, because the code
  then reads through a null pointer.
- IdleLoop.Connection.GetNextHeaderLine: the bytes of the lines are in the module ReadBuffer; here a line is empty, or has
  a colon or is folded or neither.
- IdleLoop.Connection.ParseInitialLine: the text of the request line is not parsed; what the parse finds is a parameter.
- IdleLoop.Connection.ProcessBrokenLine: what a line says and where a folded one belongs is not kept; whether it fits and
  what kind it is are parameters.
- IdleLoop.Connection.ParseConnectionHeaders: the text of the header fields is not parsed; what they say is a parameter.
- IdleLoop.Connection.HandleWrite: what the content reader has, and whether the content ends, are parameters; the modules
  Generator and ChunkedResponse have both.
- IdleLoop.Connection.NextPiece: the bytes of the chunk framing are in the module ChunkedUpload; here its outcome is any.
- ReadBuffer.Receiver.DoRead: socket errors and the end of the stream are in the module IdleLoop.
- ReadBuffer.Receiver.HandleRead: closing is in the module IdleLoop.
- ReadBuffer.Receiver.GetNextHeaderLine: header lines of a first request; the shrinking of the read buffer while a
  response is sent is not part of the model.
- ConnectionLists.Daemon.AddConnection: which check before the insertion fails is one parameter; the address limit among
  them is in the module Admission.
- ResponseOwnership.Response.Acquire: fewer than 2 to the 32 owners, as many as the counter can tell apart.
- Admission.StartDaemon: of the reasons for which a start fails only the size of the pool is modelled, because only that
  one bounds the number of workers.
- Admission.Server.AddTo: the resources a connection needs are one parameter, because each failure does the same.
- Generator.Sender.TryReadyNormalBody: bodies of known size and readers that have nothing yet are not modelled, because the
  responses of the generator have neither.
- Generator.Request.Callback: the 32-bit width of the offset is not modelled, because a generator's buffer would have to
  hold 4 GiB.
- JsonPrinter.PrintPretty: no text is taken away in between. The code looks at the last character in the buffer, so an
  indentation behind a key that was sent already starts a new line.
- FormParts.ReceiveParts: a part has the line with its name, then that with its type and that with its encoding, if there
  are any, and no others.
- JsonText.ReadText: escapes by code point and numbers with a fraction or an exponent are not read, because the printer
  makes neither.
- The order of folded header lines, cookies, the arguments of the URL, dates, status texts and the building of response
  headers.
- Earliest-deadline claims about the timeout of the event loop, and the order of the timeout list once connections are
  resumed or have timeouts of their own.
- XML output, SQLite, configuration, logging and the meaning of Modbus registers.
