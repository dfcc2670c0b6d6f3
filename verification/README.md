# Verified models of MicroPython's extmod algorithms

A Dafny project that models the self-contained algorithms and state machines among MicroPython's
extension modules, and proves properties of them: packed frame buffers and their drawing
operations, the JSON loader, the accept queue and byte stream of lwIP sockets, the I2S ring buffer,
WebSocket framing, AES counter mode, structure layout in uctypes, the bit-banged I2C master, heapq,
base64, wrapping ticks, and the scheduler's task queue with the pairing heap under it.

What the original updates in place is a class with those fields, or an array changed in place, and
its loops are loops; each such method is proved against a function or a set-based specification, and
the properties that span operations are lemmas about those.

| file | models |
|---|---|
| JsonText, JsonLoad, JsonCorrect, JsonSurrogates | the JSON grammar, the loader, and the simulation between them |
| PixelFormats, Painting | pixel formats, sets of painted pixels |
| FrameBufferSizes, FrameBuffer | the arithmetic of construction, single pixels, the fast fills |
| FrameBufferScroll, FrameBufferLine, FrameBufferEllipse, FrameBufferPoly | drawing operations |
| AcceptQueue, TcpStream | lwIP sockets |
| I2sRing | the ring buffer, its interleavings, and the copier above it |
| WebSocket | frame reader and writer |
| AesCtr | counter mode over an uninterpreted block cipher |
| Uctypes, UctypesOrder, UctypesBits | structure layout, what its sizes depend on, bit fields |
| I2cWire, SoftI2c, I2cObserver | the wires, the master that drives them, and what an observer of the wires hears |
| HeapQueue, Base64, Ticks | heapq, base64, ticks |
| PairingHeap, TaskQueue | the scheduler's queue |
| Arithmetic | small facts about products and quotients |

## Where the code does not do what is expected

These are theorems about the code as it is, each with the condition under which the code does meet the
expectation and an input for which it does not.

- JSON: an escaped surrogate pair is read as two characters, not as one (JsonSurrogates.LoadRfc,
  JsonText.SurrogatePairExample); the comment at extmod/modjson.c:112-119 promises any valid text.
- Frame buffer, stride: the rounded stride is stored in 16 bits. A stride from 65529 to 65535 in a
  one-bit horizontal format (65533 to 65535 in the two-bit one, 65535 in the four-bit one) becomes zero,
  and then two pixels are the same bits if and only if there are two rows
  (FrameBufferSizes.LostStride, FrameBufferSizes.SoundExactly).
- Frame buffer, size check: the product of height, stride and depth is computed in machine words. The
  check is right if and only if that product fits in a word (FrameBufferSizes.CheckExact); on 32-bit
  machines 16384 by 16384 pixels of 16 bits need no bytes at all (FrameBufferSizes.WrapExample). Words
  of 37 bits or more are always enough (FrameBufferSizes.WideWords).
- Ellipse: with both radii zero the first loop does not end (FrameBufferEllipse.EndsUnlessBothZero).
- Polygon: crossings left of the origin are rounded toward zero, so one can lie a column outside its
  edge (FrameBufferPoly.NodeInside, FrameBufferPoly.NodeRounds, FrameBufferPoly.VerticalEdge).
- WebSocket: the comment in the header branch says control frames leave the flags alone; the code
  replaces them (WebSocket.ControlFrameReplacesFlags).
- uctypes: the reported size of a native structure can depend on the order of its dictionary, since an
  array of structures is measured with the biggest field met so far but indexed without it
  (UctypesOrder.OrderMatters). When it does not: UctypesOrder.MattersExactly for one structure behind
  other fields, UctypesOrder.SameSizeExactly for two orders, UctypesOrder.WorstOrderExactly for all
  orders. A structure without scalars and pointers has size zero (Uctypes.NativeMultiple).
- Sockets: a connection error drops the bytes that were received and not yet read; nothing is lost if
  and only if nothing was unread (TcpStream.FailureLoses, TcpStream.WholeUnlessLost,
  TcpStream.FailureExample).
- I2C: `readfrom_mem` reports success without having read if and only if the device takes its
  address but not the whole memory address (I2cObserver.SuccessMeansRead, I2cObserver.MissedExample):
  `read_mem` then returns the number of bytes taken, and its callers look for negative results only
  (extmod/machine_i2c.c:537-543, 582-586, 604-608).

## Model

| member | source | states |
|---|---|---|
| JsonCorrect.LoadText | extmod/modjson.c:112-358 | The loader's promise: for every text that some derivation of the RFC 4627 grammar stands for, with any legal white space and nesting, loading gives the value a recursive reading of that derivation gives |
| JsonCorrect.RunDocument | extmod/modjson.c:148-358 | For every valid derivation the loop, started on its text with an empty stack, ends in success with the derivation's value as the root object |
| JsonCorrect.ParseValue | extmod/modjson.c:160-337 | Reading any value inside a container stores exactly its meaning in the container on top, leaves stack, top and other objects alone, and stops right behind its text |
| JsonCorrect.ParseElems | extmod/modjson.c:160-337 | The elements of an array, to any depth, are appended to the list on top in order |
| JsonCorrect.ParseMembers | extmod/modjson.c:160-337 | The members of an object are stored in the dictionary on top one after the other, a later equal key replacing the earlier value |
| JsonCorrect.ParseKey | extmod/modjson.c:313-326 | A string where a dictionary waits for a key becomes the single pending key, through the colon and white space, and changes no object |
| JsonCorrect.ReifyPut | extmod/modjson.c:313-337 | Filling a container in place changes the value of that container by the stored item and no younger object; this is what makes the explicit stack of references sound |
| JsonCorrect.LexPrimitive | extmod/modjson.c:177-278 | A keyword, number or string is read to the value it denotes, and reading stops at the byte behind it |
| JsonCorrect.ScanChars | extmod/modjson.c:201-246 | The string loop undoes every legal spelling of a string: plain characters, short escapes and four-digit escapes |
| JsonCorrect.HexRunValue | extmod/modjson.c:223-233 | The bit tricks on four hexadecimal digits of either case give their value |
| JsonCorrect.NumberShape | extmod/modjson.c:247-278 | The text of a number consists of number characters only, and has a point or exponent exactly if it is to be read as a float |
| JsonLoad.Load | extmod/modjson.c:148-358 | The loop with its stack, top and pending key, as it updates them, computes the run of the transition function; it ends because every round consumes input |
| JsonLoad.ReadString | extmod/modjson.c:201-246 | The string branch, escapes included, computes the string and the rest of the stream, or fails at the end of input |
| JsonLoad.ReadNumber | extmod/modjson.c:247-278 | The number branch collects the longest run of number characters and notes a float mark anywhere in it |
| JsonLoad.HexEscape | extmod/modjson.c:223-233 | The four rounds of the escape computation accumulate one number and never run past the end of the stream |
| JsonLoad.StepGood | extmod/modjson.c:160-337 | Every round keeps references pointing to younger objects, the stack free of primitives and the pending key under a dictionary |
| JsonLoad.RunOrdered | extmod/modjson.c:148-358 | Whatever the text, a successful load gives an acyclic object graph |
| JsonSurrogates.LoadRfc | extmod/modjson.c:112-119 | The loader gives the value RFC 4627 section 2.5 asks for exactly if no string holds an escaped high surrogate followed by an escaped low one (for texts whose objects have distinct keys; the if part for all texts) |
| JsonText.SurrogatePairsMatter | extmod/modjson.c:223-244 | Reading each escape on its own gives the RFC's string if and only if the string has no escaped surrogate pair |
| JsonText.SurrogatePairExample | extmod/modjson.c:223-244 | A concrete valid string for which the loader's value differs from the RFC's |
| PixelFormats.GetSet | extmod/modframebuf.c:70-232 | In all seven formats writing a pixel shows its colour there and changes no other pixel, in the same byte or elsewhere |
| PixelFormats.CellUnique | extmod/modframebuf.c:70-232 | No two pixels share their bits: same byte and same bit position mean same pixel |
| PixelFormats.CellInside | extmod/modframebuf.c:285-327 | Every pixel of the grid lies inside the size checked at construction |
| PixelFormats.LaneLaw | extmod/modframebuf.c:70-232 | Bit-level law of the packed formats: the written field reads back, every other field of the byte is unchanged |
| PixelFormats.SetTail | extmod/modframebuf.c:70-232 | Bytes of a longer buffer beyond the checked size are never touched |
| Painting.PaintedUnique | extmod/modframebuf.c:70-271 | A buffer painted on a set of pixels is determined byte for byte (stride a whole number of bytes): two ways of painting the same pixels give the same buffer |
| Painting.SetRectPaints | extmod/modframebuf.c:258-271 | Setting every pixel of a rectangle one by one paints exactly that rectangle |
| FrameBufferSizes.CheckExact | extmod/modframebuf.c:316-318 | The size check is right for every length of buffer if and only if the number of bits fits in a machine word |
| FrameBufferSizes.CheckNeverRefuses | extmod/modframebuf.c:316-318 | Where the check errs it accepts: no buffer that is large enough is refused |
| FrameBufferSizes.WideWords | extmod/modframebuf.c:316-318 | With words of 37 bits or more the check is right for every size in range |
| FrameBufferSizes.WrapExample | extmod/modframebuf.c:316-318 | A size in range for which a 32-bit check asks for no bytes at all |
| FrameBufferSizes.LostStride | extmod/modframebuf.c:292-327 | In every format: if the rounded stride does not fit its 16-bit field the stored stride is zero, and two pixels are the same bits if and only if there are two rows |
| FrameBufferSizes.SoundExactly | extmod/modframebuf.c:285-327 | Every pixel of a new object has bits of its own inside the buffer if and only if the rounded stride fits its field or there is one row, and the last pixel lies inside |
| FrameBuffer.FrameBuffer.MakeNew | extmod/modframebuf.c:273-330 | Construction accepts exactly the arguments in range for which the check, in machine words, passes; the object's pixels are sound if and only if the rounded stride fits 16 bits or there is one row, and the last pixel lies inside, which follows when the bits fit in a word |
| FrameBuffer.FrameBuffer.MonoHorizGetPixel | extmod/modframebuf.c:76-80 | The shift and bit order of the horizontal one-bit formats read the pixel |
| FrameBuffer.FrameBuffer.MvlsbGetPixel | extmod/modframebuf.c:104-106 | The read of the vertical one-bit format gives the pixel |
| FrameBuffer.FrameBuffer.Rgb565GetPixel | extmod/modframebuf.c:126-128 | The read of a 16-bit word gives the pixel |
| FrameBuffer.FrameBuffer.Gs2HmsbGetPixel | extmod/modframebuf.c:150-154 | The read of the two-bit format gives the pixel |
| FrameBuffer.FrameBuffer.Gs4HmsbGetPixel | extmod/modframebuf.c:176-182 | The read of the four-bit format, high or low nibble, gives the pixel |
| FrameBuffer.FrameBuffer.Gs8GetPixel | extmod/modframebuf.c:222-224 | The read of the byte format gives the pixel |
| FrameBuffer.FrameBuffer.SetPixel | extmod/modframebuf.c:244-246 | The dispatched write in each format is the abstract pixel write |
| FrameBuffer.FrameBuffer.GetPixel | extmod/modframebuf.c:254-256 | The dispatched read: in a buffer that has been painted on any set of pixels in any colour it gives that colour, as the format shows it, on the set, and what was there before everywhere else |
| FrameBuffer.FrameBuffer.SetPixelChecked | extmod/modframebuf.c:248-252 | Only pixels on the screen with the mask set are painted |
| FrameBuffer.FrameBuffer.MonoHorizFillRect | extmod/modframebuf.c:82-96 | The fast fill of the horizontal one-bit formats paints exactly the rectangle |
| FrameBuffer.FrameBuffer.MvlsbFillRect | extmod/modframebuf.c:108-120 | The fast fill of the vertical one-bit format paints exactly the rectangle |
| FrameBuffer.FrameBuffer.Rgb565FillRect | extmod/modframebuf.c:130-140 | The fast fill of the 16-bit format paints exactly the rectangle |
| FrameBuffer.FrameBuffer.Gs2HmsbFillRect | extmod/modframebuf.c:156-164 | The fast fill of the two-bit format paints exactly the rectangle |
| FrameBuffer.FrameBuffer.Gs4HmsbFillRect | extmod/modframebuf.c:184-215 | The byte-wise fill with odd first and last nibbles paints exactly the rectangle, byte neighbours kept |
| FrameBuffer.FrameBuffer.Gs8FillRect | extmod/modframebuf.c:226-232 | The fast fill of the byte format paints exactly the rectangle |
| FrameBuffer.FrameBuffer.FormatFillRect | extmod/modframebuf.c:70-232 | Every fast fill leaves the same bytes as setting each pixel in turn |
| FrameBuffer.FrameBuffer.FillRect | extmod/modframebuf.c:258-271 | The clipped fill paints exactly the pixels of the rectangle that are on the screen, for all coordinates and sizes including negative ones |
| FrameBuffer.FrameBuffer.Fill | extmod/modframebuf.c:343-348 | Fills the screen and nothing else |
| FrameBufferScroll.Scroll | extmod/modframebuf.c:756-797 | In-place scrolling: each pixel whose source is on the screen gets the source's old colour, all others keep theirs, for every sign of the two steps and any size of step |
| FrameBufferScroll.SourceIntact | extmod/modframebuf.c:756-797 | In the order the loops visit pixels, a source is never overwritten before it is read |
| FrameBufferScroll.MoveOnePixel | extmod/modframebuf.c:786-797 | One pixel move takes the state after a prefix of the visiting order to the state after one pixel more |
| FrameBufferLine.Line | extmod/modframebuf.c:419-477 | The error-driven loop paints exactly the on-screen points of the ideal line's nearest-pixel set, steep lines included |
| FrameBufferLine.LineIsNearest | extmod/modframebuf.c:419-477 | Every plotted point is within half a pixel of the ideal line, neighbours differ by at most one in each direction, and the line begins and ends on its two end points |
| FrameBufferLine.RoundedStep | extmod/modframebuf.c:455-472 | The minor coordinate goes up by at most one per column |
| FrameBufferLine.TrackColumn | extmod/modframebuf.c:455-472 | The integer error inside its bounds means the loop stands on the nearest row |
| FrameBufferLine.RoundedEnds | extmod/modframebuf.c:419-477 | After all columns the loop stands exactly on the second end point |
| FrameBufferEllipse.Ellipse | extmod/modframebuf.c:523-577 | The two incremental loops paint the marks of the two nearest-residual walks, in every quadrant mask, filled or not, clipped to the screen; radii not both zero |
| FrameBufferEllipse.TrackStep | extmod/modframebuf.c:533-575 | Both loops keep the error and its increments equal to their closed forms, and their test chooses the column the residual asks for |
| FrameBufferEllipse.KeepsNearer | extmod/modframebuf.c:533-575 | At each step the kept neighbour has the smaller absolute residual |
| FrameBufferEllipse.WalkIsGood | extmod/modframebuf.c:533-575 | For positive radii the whole walk keeps nearer neighbours at every step and never leaves the positive columns |
| FrameBufferEllipse.EndsUnlessBothZero | extmod/modframebuf.c:533-575 | The loops end if and only if the radii are not both zero |
| FrameBufferEllipse.DrawEllipsePoints | extmod/modframebuf.c:501-521 | One call marks exactly the symmetric points or spans selected by the mask |
| FrameBufferPoly.ClosedCrossesEvenly | extmod/modframebuf.c:622-656 | On every scan line the recorded crossings of a closed polygon are even in number and fit the nodes array |
| FrameBufferPoly.NodesParity | extmod/modframebuf.c:622-656 | The crossings of the first edges are odd in number exactly if the first and last vertex lie on different sides of the scan line |
| FrameBufferPoly.SortNodes | extmod/modframebuf.c:662-675 | The back-stepping sort ends, and leaves a sorted permutation |
| FrameBufferPoly.SpansAreEvenOdd | extmod/modframebuf.c:677-680 | Filling between consecutive pairs of sorted nodes is the even-odd rule |
| FrameBufferPoly.NodeInside | extmod/modframebuf.c:637-639 | A recorded crossing lies between the ends of its edge, up to one column beyond; exactly when it is beyond is stated (rounding toward zero left of the origin) |
| FrameBufferPoly.NodeRounds | extmod/modframebuf.c:637-639 | A recorded crossing is the nearest column, halves up, exactly if the crossing is at most half a pixel left of the origin or half way between two columns; otherwise it is the column to the right of that |
| FrameBufferPoly.FineError | extmod/modframebuf.c:637-639 | In 32nds of a pixel the crossing is less than one from the exact crossing of edge and scan line |
| FrameBufferPoly.VerticalEdge | extmod/modframebuf.c:637-639 | A vertical edge is recorded on its own column if and only if the column is not negative |
| FrameBufferPoly.FillScanLine | extmod/modframebuf.c:622-681 | One scan line paints the even-odd spans and the edges that lie on it |
| FrameBufferPoly.FillPoly | extmod/modframebuf.c:606-681 | A filled polygon paints exactly the rows from its lowest to its highest vertex |
| FrameBufferPoly.OutlinePoly | extmod/modframebuf.c:682-694 | An outline is the union of the lines between neighbouring vertices, closed |
| AcceptQueue.Listener.constructor | extmod/modlwip.c:914-965 | A listener has room for its backlog, and for one connection if the backlog is one or less |
| AcceptQueue.Listener.OccupiedRange | extmod/modlwip.c:324-330 | The occupied slots are exactly the cyclic range from iget to iput; when the two are equal it is all slots or none |
| AcceptQueue.Listener.TcpAccept | extmod/modlwip.c:473-507 | A new connection goes to the end of the queue, and is refused exactly if the queue is full |
| AcceptQueue.Listener.ErrUnaccepted | extmod/modlwip.c:428-461 | A connection that failed while it waited leaves the queue wherever it is, the others keep their order; one that is not in the queue changes nothing |
| AcceptQueue.Listener.Take | extmod/modlwip.c:994-1025 | What is taken off is the connection that has waited longest, and nothing exactly if none waits |
| AcceptQueue.Accept | extmod/modlwip.c:967-1025 | Whatever the network does in the turns of waiting, accept takes the first connection of the queue at the first moment there is one, and otherwise gives up when the time is over: at once with EAGAIN for a timeout of zero, with ETIMEDOUT after one turn for each 100 milliseconds, never without a timeout; the run stays in order |
| AcceptQueue.Wait | extmod/modlwip.c:995-1018 | The waiting loops stop at the first turn after which the slot is filled, or when the turns are used up |
| AcceptQueue.Handle | extmod/modlwip.c:428-507 | The three operations take the steps of a run as its definition says |
| AcceptQueue.AcceptsInOrder | extmod/modlwip.c:428-507 | Over every run: the connections accepted, then those waiting, are the queued ones in order of arrival without those that failed while waiting |
| AcceptQueue.AfterKeeps | extmod/modlwip.c:428-507 | Every single step keeps that order |
| TcpStream.StreamIsPreserved | extmod/modlwip.c:510-799 | Over every run of callbacks and reads: delivered bytes followed by the unread ones are the bytes received until the connection fails, always delivered in order, and the window is credited with exactly the bytes delivered |
| TcpStream.Socket.Receive | extmod/modlwip.c:730-799 | A read answers for the connection as it is after the waiting it had to do: the pending error, the first bytes at hand, end of stream, EAGAIN, a timeout or not connected; it waits only while connected with nothing to read, and times out only after the time is up |
| TcpStream.Socket.Wait | extmod/modlwip.c:743-766 | The waiting loop stops at the first moment there is data, a change of state, or no time left |
| TcpStream.Socket.TcpRecv | extmod/modlwip.c:510-534 | A packet chain goes behind what is unread; no packet means that the peer has closed |
| TcpStream.Socket.TcpError | extmod/modlwip.c:407-416 | A failure sets the pending error and drops what is unread, and nothing else |
| TcpStream.FailureLoses | extmod/modlwip.c:407-416 | A failure leaves every received byte delivered if and only if nothing is unread when it comes |
| TcpStream.WholeUnlessLost | extmod/modlwip.c:407-799 | Over every run: at the end all bytes received are delivered or still to be read, in order, if and only if no failure came while bytes were unread |
| TcpStream.FailureExample | extmod/modlwip.c:407-416 | A run in which a byte is lost |
| TcpStream.Socket.CopyOut | extmod/modlwip.c:769-799 | The copy hands over the rest of the first buffer cut at the request, and moves the read position by exactly that |
| TcpStream.ZeroMeansClosed | extmod/modlwip.c:730-799 | For a positive request over buffers that are not empty, zero is the answer if and only if the peer has closed and nothing is left |
| TcpStream.PortionIsFirst | extmod/modlwip.c:773-793 | What a read takes followed by what it leaves is what was unread |
| TcpStream.EventKeeps | extmod/modlwip.c:407-534 | No callback loses, repeats or reorders unread bytes of a connection that stays up |
| I2sRing.RingBuf.Push | extmod/machine_i2s.c:145-156 | A byte is added at the end, and refused exactly if size minus one bytes are held |
| I2sRing.RingBuf.Pop | extmod/machine_i2s.c:158-167 | The oldest byte is taken, and none exactly if the ring is empty |
| I2sRing.RingBuf.AvailableData | extmod/machine_i2s.c:177-179 | The number of bytes held |
| I2sRing.RingBuf.AvailableSpace | extmod/machine_i2s.c:181-183 | What is missing to size minus one |
| I2sRing.Sender.CopyUntilFull | extmod/machine_i2s.c:291-319 | The bytes that fit are appended in order, and it stops early only at a full ring |
| I2sRing.Sender.CopyNonBlocking | extmod/machine_i2s.c:322-340 | The next block is appended whole or not at all, exactly if it fits; with the last byte the callback is scheduled and the copy is over |
| I2sRing.Interrupts | ports/rp2/machine_i2s.c:466-479 | Over every run of interrupts, guarded as the ports guard them, with any consumption between them: the callback is scheduled at most once, exactly when the whole buffer is in the ring, and the bytes are the buffer's in order |
| I2sRing.EveryInterleaving | extmod/machine_i2s.c:132-167 | Over every interleaving of the producer's and the consumer's atomic steps the popped bytes are a prefix of the pushed ones and at most size minus one are held |
| I2sRing.NoUnreadOverwritten | extmod/machine_i2s.c:145-156 | At the step that stores, the slot written is not one of an unread byte |
| I2sRing.FullTest | extmod/machine_i2s.c:145-150 | The producer's test finds the ring full exactly if size minus one bytes are held at that moment, whatever the consumer is doing |
| I2sRing.RunKeeps | extmod/machine_i2s.c:132-167 | The invariant of the shared ring holds after every run |
| I2sRing.CopierNeverFails | extmod/machine_i2s.c:322-340 | Over every interleaving of interrupts, copy steps and consumer steps no push of the copier fails, and the bytes pushed are exactly the next ones of the application buffer |
| I2sRing.SystemNextKeeps | extmod/machine_i2s.c:322-340 | Every step of the composed system keeps the room that was checked at the interrupt |
| WebSocket.ReadsAllFrames | extmod/modwebsocket.c:76-216 | Any sequence of readable frames (7- or 16-bit length, masked or not, empty PING or PONG between them) reads back as the concatenation of the payloads (sections 5.2 and 5.3 of RFC 6455) |
| WebSocket.FeedFrame | extmod/modwebsocket.c:76-216 | One frame reads back as its payload and leaves the reader at a frame boundary |
| WebSocket.FeedCat | extmod/modwebsocket.c:76-216 | The reader's result does not depend on how the bytes are cut |
| WebSocket.WebSocket.Read | extmod/modwebsocket.c:76-216 | One call, over any transport chunking and any caller buffer, returns the bytes the bytewise reader makes of the bytes it took from the transport, in order, with nothing buffered but header bytes |
| WebSocket.WebSocket.ReadHeader | extmod/modwebsocket.c:80-161 | Header bytes arrive in any number of pieces, at most six are buffered, and they select the phase the bytewise reader selects |
| WebSocket.WebSocket.ReadBody | extmod/modwebsocket.c:163-211 | Body bytes are unmasked in place in the caller's buffer, and a body's end is a frame boundary |
| WebSocket.WebSocket.Unmask | extmod/modwebsocket.c:177-180 | The mask position carries over from call to call |
| WebSocket.WebSocket.Write | extmod/modwebsocket.c:218-254 | What is sent is a header for the payload's length followed by the payload |
| WebSocket.WriterThenReader | extmod/modwebsocket.c:76-254 | A frame from the writer reads back as its payload |
| WebSocket.ReadMany | extmod/modwebsocket.c:76-216 | Any number of calls with any buffer sizes return a prefix of the frames' payloads, and nothing else |
| WebSocket.ControlFrameReplacesFlags | extmod/modwebsocket.c:98-110 | When the flags survive a frame header: for a continuation or an equal opcode only, so control frames do replace them |
| AesCtr.CounterValue | extmod/modcryptolib.c:145-166 | The byte-wise carry counter after k blocks is the block whose value is IV + k modulo 2 to the 128, for every IV and k |
| AesCtr.IncrementValue | extmod/modcryptolib.c:153-158 | The carry loop adds one to the big-endian value, wrapping at the end |
| AesCtr.Aes.IncrementCounter | extmod/modcryptolib.c:153-158 | The loop over the counter bytes is that increment |
| AesCtr.Aes.ProcessCtr | extmod/modcryptolib.c:145-166 | Output is input XOR key stream from the stream position, for any offset into a block, in place or not; bytes behind it are kept |
| AesCtr.Aes.Process | extmod/modcryptolib.c:263-333 | The call fails exactly for a short output buffer or a change of direction, and otherwise continues the key stream where the last call stopped |
| AesCtr.ChunkingIrrelevant | extmod/modcryptolib.c:145-166 | How data is cut into calls does not matter |
| AesCtr.DecryptsAnySplit | extmod/modcryptolib.c:145-166 | Cut one way to encipher and another way to decipher, the data comes back (section 6.5 of NIST SP 800-38A) |
| AesCtr.CryptTwice | extmod/modcryptolib.c:145-166 | Deciphering at the same stream position undoes enciphering |
| AesCtr.RoundTrip | extmod/modcryptolib.c:254-333 | A second object with the same key and IV recovers the plaintext |
| AesCtr.RoundTripInPieces | extmod/modcryptolib.c:254-333 | Two objects, any list of calls on the first, and the joined result cut in any way into calls of the second: the joined plaintext comes back |
| AesCtr.ProcessAll | extmod/modcryptolib.c:263-333 | A series of calls on one object continues one key stream |
| Uctypes.StructSize | extmod/moductypes.c:184-238 | The field loop with its total and its in-out biggest field computes the size of the descriptor tree |
| Uctypes.AggregateSize | extmod/moductypes.c:145-182 | The same for aggregates, recursively |
| Uctypes.DescGrows | extmod/moductypes.c:136-238 | The size is monotone in the incoming biggest field size, for every descriptor tree |
| Uctypes.DescMax | extmod/moductypes.c:136-238 | The outgoing biggest field size is the larger of the incoming one and the descriptor's own |
| Uctypes.FieldInside | extmod/moductypes.c:184-238 | Every field that takes any room ends inside the reported size |
| Uctypes.AccessInside | extmod/moductypes.c:382-556 | Whatever a chain of attribute and index accesses arrives at, scalar, array element or structure, lies inside the reported size if it takes any room |
| Uctypes.NativeMultiple | extmod/moductypes.c:233-236 | A native structure's size is a multiple of its biggest field; a descriptor without any scalar or pointer, at any depth, has size zero whatever offsets it lists |
| Uctypes.LeafMax | extmod/moductypes.c:184-238 | No biggest field is found if and only if the descriptor has no scalar or pointer at any depth |
| UctypesOrder.NeverMatters | extmod/moductypes.c:136-238 | Sizes of layouts other than native never depend on what was met before |
| UctypesOrder.MattersExactly | extmod/moductypes.c:159-236 | A native dictionary behind fields up to a given size reports what it reports alone if and only if its size is a multiple of that and each of its fields, measured at its place, still ends inside; through any nesting |
| UctypesOrder.MattersFlat | extmod/moductypes.c:159-236 | For a dictionary of scalars, pointers and scalar arrays that is: if and only if its size is a multiple |
| UctypesOrder.NeverMattersExactly | extmod/moductypes.c:159-236 | A native dictionary reports the same size wherever it stands if and only if its size is a multiple of eight and every field ends inside when measured behind an eight-byte field |
| UctypesOrder.NoMoreExactly | extmod/moductypes.c:184-236 | One order of the same fields reports no more than another if and only if its fields, as it measures them, end inside the other's size |
| UctypesOrder.SameSizeExactly | extmod/moductypes.c:184-236 | Two orders of the same fields report the same size if and only if the fields of each end inside the size of the other, or there is no scalar |
| UctypesOrder.WorstOrderExactly | extmod/moductypes.c:184-236 | No order of the fields reports more than this one if and only if every field, measured behind all the others, ends inside its size |
| UctypesOrder.PlainOrders | extmod/moductypes.c:184-236 | Where no field's own size depends on what is met before it, all orders report the same size |
| UctypesOrder.OrderMatters | extmod/moductypes.c:159-176 | A descriptor whose reported size depends on the order of its fields: 40 bytes one way, 16 the other |
| UctypesBits.Set | extmod/moductypes.c:411-443 | Writing a bit field changes only the bytes of its word, and of their bits only the field's |
| UctypesBits.Get | extmod/moductypes.c:411-426 | Reading gives the field's bits |
| UctypesBits.ReadsBack | extmod/moductypes.c:411-443 | A written field reads back the low bits of the value; bits beyond the word are lost |
| UctypesBits.FitsExactly | extmod/moductypes.c:411-443 | Every value reads back if and only if the field fits in its word |
| UctypesBits.NeighboursKeep | extmod/moductypes.c:427-442 | Other fields of the same word keep their values |
| SoftI2c.Master.Transfer | extmod/machine_i2c.c:187-243 | Unless the slave holds the clock too long, the wires show a START, the address byte, the bytes offered or received with their acknowledges, a STOP if asked for or the address was refused, and nothing else; the result is the number of acknowledges, zero, or ENODEV exactly if the address was refused; a read fills the buffers in order, and nothing else changes them |
| SoftI2c.Master.WriteByte | extmod/machine_i2c.c:111-146 | Nine clock periods: the bits, most significant first, then the slave's level as the result |
| SoftI2c.Master.ReadByte | extmod/machine_i2c.c:148-182 | Nine clock periods: the slave's eight levels as the byte, then the master's acknowledge or none |
| SoftI2c.Master.Start | extmod/machine_i2c.c:79-89 | From an idle or a held bus, a START if the slave lets go of the data wire |
| SoftI2c.Master.Stop | extmod/machine_i2c.c:91-99 | One clock period with the data wire down, then a STOP if the slave lets go of it |
| SoftI2c.Master.SclRelease | extmod/machine_i2c.c:52-65 | The clock goes up after the slave's stretching, or the call times out |
| SoftI2c.Master.SendBuffers | extmod/machine_i2c.c:207-232 | Bytes go out in order over all buffers up to and including the first that is refused |
| SoftI2c.Master.ReceiveBuffers | extmod/machine_i2c.c:207-217 | Bytes received fill the buffers one after the other |
| SoftI2c.Master.Payload | extmod/machine_i2c.c:206-242 | The buffers and the STOP |
| I2cObserver.ObserverRecovers | extmod/machine_i2c.c:187-243 | For every transfer, begun on an idle bus or on one that is held, with a STOP or without, and a slave that keeps to the protocol: an observer hears one message with the address byte and every data byte and acknowledge (sections 3.1.3 to 3.1.6 of NXP UM10204) |
| I2cObserver.RunHeard | extmod/machine_i2c.c:187-243 | Over every run of transfers, each beginning on the bus the one before has left: what is heard is exactly one message for each, in order, with all its bytes, ended by its STOP or by the next START |
| I2cObserver.ListenTransfer | extmod/machine_i2c.c:187-243 | A transfer without a STOP leaves the observer in the middle of its message, and the START of the next ends it; nothing is lost between them |
| I2cObserver.ListenStart | extmod/machine_i2c.c:79-89 | The clock period in which a repeated START is made belongs to no byte |
| I2cObserver.ListenStop | extmod/machine_i2c.c:91-99 | The clock period in which a STOP is made belongs to no byte |
| I2cObserver.TransferOne | extmod/machine_i2c.c:294-306 | A transfer of one buffer: a read fills the buffer with what the slave sends exactly if the address is taken, a write leaves it alone and returns the number of bytes taken |
| I2cObserver.ReadMem | extmod/machine_i2c.c:514-544 | The memory address is written without a STOP and the bytes are read after a repeated START, or an empty write makes the STOP if the address was not taken: the bus is idle in the end, and an observer hears these two messages and nothing else |
| I2cObserver.SuccessMeansRead | extmod/machine_i2c.c:537-608 | The result is not negative exactly if the device takes its address, and takes it again if it has taken the whole memory address; success means the buffer holds what the device sent if and only if the whole memory address was taken |
| I2cObserver.MissedExample | extmod/machine_i2c.c:537-543 | A device for which reading memory succeeds and reads nothing |
| I2cObserver.NackExactlyLast | extmod/machine_i2c.c:212-213 | The master refuses the last byte received, if the last buffer holds any, and no other |
| I2cObserver.AddressRecovered | extmod/machine_i2c.c:197 | The address byte names a seven-bit address and the direction |
| I2cWire.SentFrames | extmod/machine_i2c.c:111-146 | An observer recovers every byte the master sends while the slave listens, and which were refused |
| I2cWire.ReceivedFrames | extmod/machine_i2c.c:148-182 | An observer recovers every byte the slave sends, and which the master refused |
| I2cWire.BitsRoundTrip | extmod/machine_i2c.c:115-182 | A number is recovered from its bits |
| HeapQueue.Heap.SiftDown | extmod/modheapq.c:41-54 | A new leaf is moved up until the order holds; the items stay the same |
| HeapQueue.Heap.SiftUp | extmod/modheapq.c:56-71 | The hole is sunk to a leaf first and the item moved back up: the order holds from the start position on; the items stay the same |
| HeapQueue.Heap.HeapPush | extmod/modheapq.c:73-79 | Adds the item and keeps the heap order |
| HeapQueue.Heap.HeapPop | extmod/modheapq.c:81-95 | Takes out an item no other is less than, and keeps the order; fails exactly if empty |
| HeapQueue.Heap.Heapify | extmod/modheapq.c:97-104 | Makes any list a heap of the same items |
| HeapQueue.RootIsLeast | extmod/modheapq.c:41-104 | In a heap no item is less than the first |
| HeapQueue.UpStep | extmod/modheapq.c:44-52 | Moving a parent down past the new item leaves the order broken at most one level higher |
| HeapQueue.DownStep | extmod/modheapq.c:60-67 | Moving the smaller child up leaves the order broken at most one level lower |
| HeapQueue.Drain | extmod/modheapq.c:81-104 | Heapify and repeated pops give the sorted list |
| Base64.RoundTrip | extmod/modbinascii.c:52-169 | Decoding undoes encoding for every byte string, with or without the newline (section 4 of RFC 4648) |
| Base64.A2b | extmod/modbinascii.c:68-108 | The bit-collecting loop with its 32-bit register gives the meaning of the text, padding errors included, and never writes beyond its allocation |
| Base64.B2a | extmod/modbinascii.c:110-169 | The two passes over the output give the encoding, in exactly the space allocated |
| Base64.JunkIgnored | extmod/modbinascii.c:89-92 | Characters outside the alphabet and the pad, inserted anywhere in any text, never change the result |
| Base64.DecodedLength | extmod/modbinascii.c:74 | At most three bytes for four characters |
| Base64.EncodedLength | extmod/modbinascii.c:124 | The encoding's length is the length allocated |
| Base64.PushStep | extmod/modbinascii.c:94-100 | What falls off the top of the register never matters: the byte taken out is the next byte of the meaning |
| Base64.Alphabet | extmod/modbinascii.c:52-66 | The two alphabet functions undo each other |
| Base64.DecodesChars | extmod/modbinascii.c:52-169 | An encoding followed by any junk decodes to the bytes, at any group boundary |
| Ticks.AddThenDiff | extmod/modtime.c:166-197 | Both laws of ticks hold for exactly the deltas that are accepted, for every power-of-two period and word size |
| Ticks.OverflowTest | extmod/modtime.c:186-194 | The unsigned overflow test is the signed comparison its comment claims |
| Ticks.HalfBack | extmod/modtime.c:182-185 | Half a period back is rejected although the first law holds for it |
| Ticks.DiffIs | extmod/modtime.c:166-176 | The difference is the one number within half a period that is congruent to the true difference |
| Ticks.LtIsEarlier | extmod/modasyncio.c:70-82 | Among times less than half a period apart the order of ticks is the order of times, across wrap-round |
| PairingHeap.Pairing | py/pairheap.c:66-86 | The loop over the children melds them in pairs from left to right |
| PairingHeap.MeldShaped | py/pairheap.c:38-64 | Whatever the times: melding keeps all tasks, each once, and siblings in the order of their pushes |
| PairingHeap.PairingShaped | py/pairheap.c:66-86 | Whatever the times: pairing a list of children keeps all tasks, each once, and that order |
| PairingHeap.DeleteShaped | py/pairheap.c:88-147 | Whatever the times: deleting a task anywhere removes it alone |
| PairingHeap.MeldKeeps | py/pairheap.c:38-64 | Melding keeps the heap order and the stability order, and all tasks, if the first heap is newer |
| PairingHeap.PairingKeeps | py/pairheap.c:66-86 | Pairing a list of children keeps both orders and all tasks |
| PairingHeap.DeleteKeeps | py/pairheap.c:88-147 | Deleting a node anywhere removes it alone and keeps both orders; deleting one that is not there changes nothing |
| PairingHeap.DrainedInOrder | py/pairheap.c:38-86 | A heap is emptied in time order, and in the order of the pushes among tasks due at the same time: the heap is stable as its comments say |
| TaskQueue.TaskQueue.Push | extmod/modasyncio.c:105-118 | The task joins those waiting, whatever its time; the queue stays in time order if the time lies less than half a period from those waiting |
| TaskQueue.TaskQueue.Pop | extmod/modasyncio.c:120-129 | A waiting task comes out and no other leaves, and it fails exactly if none waits; in time order it is the task due first, and of those due at the same time the one pushed first; a queue that has run empty is in time order |
| TaskQueue.TaskQueue.Peek | extmod/modasyncio.c:95-103 | Shows a waiting task, in time order the one due first, and nothing exactly if none waits |
| TaskQueue.TaskQueue.Remove | extmod/modasyncio.c:131-137 | Takes out the named task and no other |

## Left out

- Argument parsing, object boxing, printing, module tables and memory allocation failures, in every file.
- JSON: converting a number literal to a number (which literals the converters accept is a parameter), the iteration order and hashing of dictionaries, input and output streams, and writing JSON.
- Frame buffer: blit, text and the unfilled rectangle; overflow of machine integers in coordinates and the drawing arithmetic, which is over mathematical integers (the size check and the stride field are in machine words); 16-bit pixels are stored little-endian. The drawing operations are stated for objects whose stride fits its field and whose buffer holds all pixels; of the others only what becomes of their pixels is stated.
- FrameBufferEllipse.Ellipse: for both radii zero only the fact that the loop does not end is stated.
- FrameBufferPoly.OutlinePoly: an empty polygon is not drawn by the caller and is excluded.
- Painting.PaintedUnique: is about strides that are a whole number of bytes, which is what construction makes of every stride that fits its field.
- lwIP: the stack itself, datagram and raw sockets, sending, listener teardown, backlogs above 255, and the configuration that holds a single packet.
- AcceptQueue.Accept: what the network does while it waits is a given list of turns, one for each delay of 100 milliseconds or each poll; without a timeout a list that is used up leaves it waiting. The checks of the socket's kind and state before it, and the new socket object, are not modelled.
- TcpStream.Socket.Receive: what happens while the socket waits is a given finite list of turns; when it runs out the answer is that the read is still waiting. The table of error numbers is not modelled, only which error is looked up.
- I2S: mapping of receive frames, blocking waits, and the receive direction of the non-blocking copier; the callback is a counter.
- WebSocket: 64-bit lengths and fragmented messages (asserted off in the code), replies to CLOSE, and control frames with payload; the transport is any that delivers bytes in order in pieces of its choice.
- AES: the block cipher itself, which is an uninterpreted function, the other modes, and the branch for the other crypto library.
- uctypes: the errors for descriptors that are not well formed and for the size of a bare scalar, byte orders other than native, signed bit fields (asserted off in the code), raw pointers and what they point to, negative indices, and wrap-round of sizes; words are little-endian.
- SoftI2c.Master.Transfer: after a timeout nothing is said about the wires, but that the master lets go of the data wire; delays are not modelled. The slave is a level for each clock period and a stretching time for each release.
- I2cObserver.ReadMem: takes the memory address as bytes; cutting it from a number, and the single combined transfer some hardware ports do instead, are not modelled.
- heapq: the order is a parameter; results about order are for strict weak orders.
- Base64.A2b: a buffer is a sequence of bytes; reading other objects as buffers is not modelled.
- Ticks: reading the clocks.
- PairingHeap.Pairing: a node's children are a list value; the child, last-child and tagged next pointers that represent it, and finding a node's parent along them, are not modelled.
- TaskQueue.TaskQueue.Push: the task must not be in the queue already, as the linked heap demands; cancelling and running tasks is not modelled.
