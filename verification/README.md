# Verified models of FreeTDS components

FreeTDS is a C implementation of the TDS protocol with client libraries and tools for Sybase and
Microsoft SQL Server. This project models eight of its pieces that carry state, loops and
arithmetic, and proves what each promises, over every input and every run.

| component | source | modules |
|---|---|---|
| bulk-copy host files: copy out, copy in, the loading loop, program variables | `src/dblib/bcp.c` | `HostCodec`, `HostLaws`, `HostFileLaws`, `HostFile`, `Load`, `ProgVar` |
| the scan for a field terminator | `src/tds/bulk.c`, `src/tds/stream.c` | `TermScan` |
| the row buffer of DB-Library and the calls that use it | `src/dblib/buffering.h`, `src/dblib/dblib.c` | `RowRing`, `RowStore`, `RowBuffer`, `RowRuns`, `RowClient` |
| the TCP capture writer | `misc/dump_write.c` | `Bytes`, `Checksum`, `TcpDump`, `TcpReceiver`, `Capture`, `TcpRuns` |
| splitting and quoting of index keys | `src/apps/defncopy.c` | `IndexKeys`, `IndexKeyLaws` |
| TDS packet framing | `misc/bounce.c` | `Packets`, `Framing`, `FramingRuns`, `SessionRuns` |
| pivot aggregation, and the fetching of its keys | `src/dblib/dbpivot.c`, `src/dblib/dblib.c` | `Pivot`, `PivotLaws`, `PivotKeys` |
| unescaping of terminators | `src/apps/freebcp.c` | `Unescape` |

Loops of the C code are methods with loops; structures that the code updates are classes. Each of
these is tied by its contract to a specification function or state, and the laws are lemmas about
that. What the programs cannot control is left open: how much a socket takes or gives and when it
fails, whether the server accepts a row or a commit, which rows fail to convert, when a capture
file refuses a packet or takes only part of it.

## Main results

- **Host files.** A field that was copied out is read back, with the file just behind it, in every
  file exactly when a condition on format and value holds (`FieldRoundTrip`), and so are rows and
  files (`RowReadsBack`, `FileReadsBack`). A file cut after any byte gives exactly the rows wholly
  before the cut, and the report of its end is determined (`CutFile`, `RowsBeforeCut`, `EndAtCut`).
  A table copied out and loaded again offers the server the same rows in order (`CopyOutAndIn`).
- **Row buffer.** From allocation on, every run of adds, saves and deletes keeps the ring sound and equal
  to a plain queue, and the program's own consistency check holds throughout (`EveryRunIsAQueue`).
  Every buffered row keeps the data with which it arrived (`RowBuffer.Valid`). Any sequence of
  `dbnextrow`, `dbgetrow`, `dbsetrow` and `dbclrbuf` answers as a small machine does
  (`RowClient.Process.Run`), in which every row delivered is one that arrived, with its number and data
  (`RowsAreArrivals`), and a client that jumps back gets the rows from there on exactly while the
  result is open (`Replayed`). A client that reads on gets exactly the rows that arrived (`ReadAll`).
- **Capture writer.** An independent reader takes the capture file apart record by record, checks
  both checksums, addresses, sequence numbers and acknowledgements of every packet, and gets both
  streams back from any interleaving of successful writes, on machines of either byte order
  (`TcpRuns.DumpConnection`). When records are refused or torn, it accepts the file if and only if
  none is torn and none stands behind a gap that is visible modulo 2^32, and gets back all that was
  written if and only if every write succeeded (`EveryCapture`, `RunRead`); this for every run that
  does not go on behind a torn record. In every other run it still finds all packets before the first
  tear (`UpToTheTear`).
- **Index keys.** The list of keys comes apart into the keys exactly when no longer column name fits
  anywhere in it (`SplitExactly`); all writes stay inside the buffer sized in advance
  (`QuoteIndexKeys`), and the output reads back as the keys (`QuotedKeysAreTheKeys`).
- **Framing.** Whatever portions are pushed, sent, received and pulled, the receiver gets the bytes
  that were sent (`Deliver`), in packets that are full and marked as continued except the last
  (`SendMessage`). Over any sequence of pushes and pulls on one session, the wire carries one message
  for each group of pushes that a pull ended, and the bytes pulled are those received less exactly
  what pushes discarded (`RunSession`); and of two sessions, what the second one handed out,
  discarded and holds, with what the first one has not sent, is what the first one said (`Talking`).
- **Pivot.** The loop computes group-by over the keys as compared (`ComputePivot`); counts are
  conserved (`CountIncrease`) and the order of the rows does not matter (`PivotsAgree`). For every
  result, which rows fall together is determined (`MergedExactly`), and the groups are those of the
  server's keys, for all results that a schema allows, if and only if each key column is NOT NULL
  with texts shorter than its length and free of NUL (`RightExactlyWhenSafe`); then the pivot is the
  group-by of the result itself (`PivotResult`).
- **Unescape.** The in-place loop equals a left-to-right decoder (`UnescapeInPlace`) that undoes the
  escaper (`DecodeOfEncode`).

## Where the code differs from what one expects

- `lastrow` has no effect on either copy: the bound is the greater of it and 0x7FFFFFFF
  (`Load.LastrowHasNoEffect`).
- The result of the last commit of a load is ignored, so `*rows_copied` includes rows in doubt
  (`Load.ExecIn`).
- NULL in a fixed-length column without a terminator always misaligns the file
  (`HostLaws.NullInFixedColumn`); without a terminator, a NULL behind a two- or four-byte prefix comes
  back as empty data (`HostLaws.NullComesBack`).
- The branch that takes the length of a C string for a program variable is dead
  (`ProgVar.NoStringLength`).
- Making the oldest row current with `dbsetrow` and then calling `dbnextrow` fails an assertion, or,
  when the buffer is full, reports a full buffer (`RowRing.JumpTo`). Clearing rows up to the current
  one has the same effect (`RowRing.CursorAfterDelete`).
- A push discards received bytes that were not pulled yet, and nothing else
  (`Framing.Session.Push`).
- A capture file that refuses a segment leaves the sequence number one segment ahead. The program
  goes on, and the next packet, of either direction, does not continue the streams
  (`TcpRuns.RefusedWriteLeavesAGap`, with a run of two packets in `TcpRuns.AnswerBehindAGap`).
- Once `dbnextrow` has answered that there are no more rows it never delivers a buffered row again,
  even after `dbgetrow` went back to one (`RowClient.Replayed`).
- A table with a column name that continues another one past a separator makes key lists ambiguous;
  the longer name wins (`IndexKeyLaws.LongerNameWins`).
- The pivot takes different keys for the same one: a NULL key for the key of an earlier row, whose
  bytes are still in the variable; texts that differ only in their last character when they fill the
  column, since the variable keeps one character less; and texts that differ behind a NUL
  (`PivotKeys.WrongGroups`; exactly when, in `PivotKeys.MergedExactly` and
  `PivotKeys.RightExactlyWhenSafe`).

## Model

| member | source | states |
|---|---|---|
| IndexKeys.CountChars | src/apps/defncopy.c:171-181 | The result is the number of occurrences of the character; none for NUL. |
| IndexKeys.SqlQuote | src/apps/defncopy.c:183-192 | Given room for the doubled text, writes exactly it behind what was there and returns the end. |
| IndexKeys.DoubledLength | src/apps/defncopy.c:183-192 | Doubling adds one character for each occurrence of the quote, which is what the callers' size formulas rely on. |
| IndexKeys.UndoubledDoubled | src/apps/defncopy.c:183-192 | Un-doubling undoes doubling for every text and quote character. |
| IndexKeys.QuoteId | src/apps/defncopy.c:194-208 | The buffer computed in advance is filled exactly: bracket, doubled name, bracket, NUL. |
| IndexKeys.QuoteStr | src/apps/defncopy.c:210-224 | The result is the text with each apostrophe doubled, and un-doubles to the text. |
| IndexKeys.LongestIsLongest | src/apps/defncopy.c:461-479 | The name that the search stands for is in the table and no fitting name is longer. |
| IndexKeys.FittingNames | src/apps/defncopy.c:461-479 | Two fitting names of the same length are equal, so the first of them is as good as any. |
| IndexKeys.FindColumnName | src/apps/defncopy.c:461-479 | Returns the place of the longest fitting name, -1 exactly when no nonempty name fits. |
| IndexKeys.RoundFits | src/apps/defncopy.c:489-530 | What one round writes, with the room for the rest, is within the room before, and the rest of the list is shorter. |
| IndexKeys.TakeKey | src/apps/defncopy.c:498-526 | Cuts the next key off the list: longest column name, the same after one blank, or up to the separator. |
| IndexKeys.PutKey | src/apps/defncopy.c:505-524 | Writes the bracketed key, after a comma unless it is the first, and nothing else. |
| IndexKeys.QuoteIndexKeys | src/apps/defncopy.c:486-531 | Every write is inside the buffer of the size computed in advance, the loop ends, and the text before the NUL is the rendering of the keys found. |
| IndexKeyLaws.SplitExactly | src/apps/defncopy.c:481-531 | A joined list of column names splits into exactly those names if and only if no longer column name fits at the place of a key. |
| IndexKeyLaws.SplitOfJoin | src/apps/defncopy.c:481-531 | If no column name continues another past a separator, every list of column names splits into itself. |
| IndexKeyLaws.SepFreeTable | src/apps/defncopy.c:481-485 | Tables whose names do not contain the separator are of that kind. |
| IndexKeyLaws.LongerNameWins | src/apps/defncopy.c:481-485 | A table for which splitting is not exact. |
| IndexKeyLaws.SplitSepFree | src/apps/defncopy.c:497-528 | Without the separator in any name, keys outside the table come out too, less one leading blank when the rest is a column name. |
| IndexKeyLaws.ParseOfRender | src/apps/defncopy.c:505-529 | Reading the output as SQL reads bracketed identifiers gives exactly the keys, whatever characters they hold. |
| IndexKeyLaws.QuotedKeysAreTheKeys | src/apps/defncopy.c:481-531 | From the server's list through the output back to the index keys. |
| Unescape.DecodeOfEncode | src/apps/freebcp.c:145-179 | Decoding undoes the escaper for every text, embedded NULs included. |
| Unescape.DecodedLength | src/apps/freebcp.c:174-178 | Each recognised escape shortens the text by one and nothing else does. |
| Unescape.DecodeKeeps | src/apps/freebcp.c:153-172 | The text stays as it is exactly when it holds no recognised escape. |
| Unescape.DecodedBackslash | src/apps/freebcp.c:174-176 | A decoded backslash does not begin another escape, whatever follows it. |
| Unescape.KnownEscapes | src/apps/freebcp.c:153-168 | The five escapes, and the character that each stands for, in front of any text. |
| Unescape.UnknownEscape | src/apps/freebcp.c:169-171 | A backslash before any other character, or at the end, stays with what follows it. |
| Unescape.DecodeTwice | src/apps/freebcp.c:174-176 | A text on which decoding twice differs from decoding once. |
| Unescape.Search | src/apps/freebcp.c:149 | Finds the first occurrence before the NUL, or the NUL. |
| Unescape.Replace | src/apps/freebcp.c:174-176 | The escape becomes one character and the rest of the text, with its NUL, moves down by one. |
| Unescape.Handle | src/apps/freebcp.c:151-177 | One round keeps what decoding will leave, and less is to be decoded afterwards. |
| Unescape.UnescapeInPlace | src/apps/freebcp.c:145-179 | The text becomes the decoded one, the length counts NULs that decoding created, a NUL follows, and nothing behind the original NUL changes. |
| Checksum.FoldTwice | misc/dump_write.c:30-34 | Two folds of any 32-bit sum fit in 16 bits and give its ones' complement value. |
| Checksum.AddWords | misc/dump_write.c:41-46 | The loop adds the words, with an odd byte padded, modulo 2^32. |
| Checksum.WordSumIs | misc/dump_write.c:41-46 | The sum of the words is that of the single bytes, weighted 256 and 1 by their place in the word and the byte order, a last odd byte included. |
| Checksum.PaddedByte | misc/dump_write.c:45-46 | A zero byte at the end changes neither sum nor checksum. |
| Checksum.ComputeCksum | misc/dump_write.c:36-50 | The result fits in 16 bits and is the ones' complement value of the wrapped sum; without overflow, the checksum of start and data. |
| Checksum.NoOverflow | misc/dump_write.c:36-50 | No addition overflows on up to 65534 words of data. |
| Checksum.CksumChain | misc/dump_write.c:244-246 | Chained calls give what one call over the joined data gives. |
| Checksum.CksumWord | misc/dump_write.c:244 | Adding a word to a checksum stands for two more bytes of data. |
| Checksum.CksumByteOrder | misc/dump_write.c:36-50 | Machines of the two byte orders compute byte-swapped checksums of the same data, odd lengths included. |
| Checksum.AllOnesInEitherOrder | misc/dump_write.c:36-50 | Data that sums to all ones in one byte order does in the other. |
| Checksum.AllOnesMeans | misc/dump_write.c:36-50 | A checksum of all ones means that the weighted sum of the bytes in network order is a positive multiple of 0xffff. |
| Checksum.StoredChecksumVerifies | misc/dump_write.c:241-247 | With the complement of the checksum stored in place of zeros, the data sums to 0xffff for a verifier of either byte order. |
| TcpDump.PseudoSum | misc/dump_write.c:179-183 | The cached sum of the pseudo header serves both directions. |
| TcpDump.Flow.constructor | misc/dump_write.c:162-186 | A new flow has sent nothing in either direction. |
| TcpDump.Flow.SegmentSum | misc/dump_write.c:243-246 | From the cached sum, the checksum over pseudo header, length, header and payload in one pass. |
| TcpDump.Flow.TakeNumbers | misc/dump_write.c:222-238 | The numbers are the bytes sent in this and in the other direction, modulo 2^32; the direction's counter moves on. |
| TcpDump.Flow.NextPacket | misc/dump_write.c:217-247 | The packet is that of the segment with these numbers, ends and payload, both checksums stored. |
| TcpDump.Writer.constructor | misc/dump_write.c:133-151 | A new file holds the file header. |
| TcpDump.Writer.Put | misc/dump_write.c:249-252 | A record, with its header, is in the file whole, not at all, or up to some byte, and the answer is yes only for whole. |
| TcpDump.Flow.WriteSegment | misc/dump_write.c:213-256 | One round tries the first of the remaining segments and counts it as sent whether it was stored, refused or torn. |
| TcpDump.Flow.WriteData | misc/dump_write.c:193-258 | The segments are tried in turn up to the first that is not stored, all tried ones count as sent, and the result is the size exactly when all were stored. |
| TcpDump.SegmentSizes | misc/dump_write.c:198-215 | A write of n bytes makes n/1460 segments, rounded up, all but the last of 1460 bytes. |
| TcpReceiver.HeaderConstants | misc/dump_write.c:81-84 | The bytes of a packet that no stream depends on: service type, identification, fragment, time to live, flags, window, urgent pointer. |
| TcpReceiver.StepIsExact | misc/dump_write.c:203-247 | A reader with its own sums and numbers, which verifies addresses, lengths and both checksums of a packet, sees exactly the segment that was put in it. |
| TcpRuns.SegmentAccepted | misc/dump_write.c:222-238 | In either direction, a segment continues the streams exactly when both counters agree with them modulo 2^32. |
| Capture.ReadHeader | misc/dump_write.c:133-141 | A reader that checks every field of the file header accepts it and finds the writer's byte order. |
| Capture.RecordParts | misc/dump_write.c:208-219 | A record begins with the time stamp and the packet's length, twice. |
| Capture.ReadRecord | misc/dump_write.c:208-219 | A record is read back by the length in its header, and what follows behind it. |
| Capture.ReadTorn | misc/dump_write.c:249-252 | A file that ends inside a record, header or packet, is recognised as not whole. |
| Capture.ReadContents | misc/dump_write.c:249-252 | Up to the first tear the stored packets are read one for one, whatever follows. |
| Capture.WholeFile | misc/dump_write.c:249-252 | With nothing torn the file is whole and holds exactly the stored packets. |
| Capture.TornFile | misc/dump_write.c:249-252 | With the last record torn the packets before it are read and the file is not whole. |
| Capture.BeforeTheTear | misc/dump_write.c:249-252 | In every file, torn anywhere and gone on with, the packets before the first tear are read. |
| TcpRuns.SentIsStoredOrLost | misc/dump_write.c:222-252 | The counters are the bytes stored plus the bytes lost, in each direction, over any run. |
| TcpRuns.PacketsAccepted | misc/dump_write.c:193-258 | For every run: the stored packets are accepted if and only if none stands behind a loss that is not a multiple of 2^32, and then give the stored bytes of both directions. |
| TcpRuns.EveryCapture | misc/dump_write.c:193-258 | For every run that does not go on behind a torn record: the reader accepts the file if and only if none is torn and none is stored behind such a loss, and then has the stored bytes of both directions. |
| TcpRuns.UpToTheTear | misc/dump_write.c:193-258 | For every run: the packets before the first tear are read, and what they give is determined. |
| TcpRuns.SmallLosses | misc/dump_write.c:222-252 | With losses below 2^32 bytes the packets are in order exactly when nothing was stored after a loss. |
| TcpRuns.RefusedWriteLeavesAGap | misc/dump_write.c:222-252 | A packet of either direction stored after a loss makes the reader refuse the capture. |
| TcpRuns.AnswerBehindAGap | misc/dump_write.c:222-252 | A run of two packets in which the server's byte is lost and the client's packet then refused by a reader. |
| TcpRuns.WriteExtends | misc/dump_write.c:212-257 | One write, up to its first failure, extends the run: by all its data if it succeeds, and by fewer bytes if not. |
| TcpRuns.RunRead | misc/dump_write.c:193-258 | If every write succeeded everything comes back; if not, and unless the run went on behind a torn record, it does not, and what is read is determined. |
| TcpRuns.DumpConnection | misc/bounce.c:680-691 | A connection dumped write by write with failures passed over: the file, and the same of what is read from it. |
| RowRing.CheckAlwaysHolds | src/dblib/buffering.h:25-77 | Everything that the consistency check asserts follows from the invariant. |
| RowRing.EmptyRing | src/dblib/buffering.h:462-480 | Allocation gives a sound, empty buffer. |
| RowRing.AddedRow | src/dblib/buffering.h:486-527 | Adding appends to the queue; at capacity one it replaces the row. |
| RowRing.DroppedRow | src/dblib/buffering.h:284-296 | A round of deleting takes the oldest row off the queue, and an empty buffer goes back to its initial position. |
| RowRing.NotBuffered | src/dblib/buffering.h:240-268 | A number that no row from tail to head carries is outside the run of numbers that ends at the last received. |
| RowRing.CurrentIndexExact | src/dblib/buffering.h:404-427 | Exactly when the answer is no row, the slot, or a failed assertion. |
| RowRing.JumpTo | src/dblib/dblib.c:2061-2076 | A jump to a buffered row makes it current, except for the oldest one: that fails an assertion, or counts as no row when the buffer is full. |
| RowRing.StepFrom | src/dblib/buffering.h:361-368 | After a buffered row is handed out the next one is the one with the next number. |
| RowRing.CursorSlot | src/dblib/buffering.h:404-427 | A current row is in the slot that arithmetic on its number gives. |
| RowRing.CursorAfterDelete | src/dblib/buffering.h:274-301 | After deleting some rows the current row is still that row, unless it was deleted or is now the oldest; then using it fails an assertion. |
| RowRing.ClearedCursor | src/dblib/dblib.c:2858-2873 | What clearing does to any cursor; one whose use fails an assertion stays so. |
| RowStore.SaveNewest | src/dblib/buffering.h:532-554 | Saving the newest row changes no row's data, and then every row owns its block. |
| RowStore.ReadNext | src/dblib/dblib.c:2144-2148 | The next row from the server overwrites no saved row. |
| RowStore.AddNewest | src/dblib/buffering.h:505-508 | A row added behind saved rows shares its descriptor's block, and the references grow by one. |
| RowStore.DropOldest | src/dblib/buffering.h:152-164 | Freeing the oldest row touches no other row, and its reference is given back. |
| RowBuffer.RowBuffer.constructor | src/dblib/buffering.h:462-480 | A new buffer is valid and empty, and delivers row 1 next. |
| RowBuffer.RowBuffer.Row2Idx | src/dblib/buffering.h:240-268 | The march from tail to head returns what arithmetic on the row number gives: a slot for exactly the buffered numbers, otherwise -1. |
| RowBuffer.RowBuffer.FreeOldest | src/dblib/buffering.h:285-295 | The assignments of one round of deleting, on the slots, the indices and the store. |
| RowBuffer.RowBuffer.DropOne | src/dblib/buffering.h:284-296 | One round frees the oldest row; all other rows keep number and data. |
| RowBuffer.RowBuffer.DeleteRows | src/dblib/buffering.h:274-301 | The given number of oldest rows goes, all if it is negative or too big; the others and the cursor stay. |
| RowBuffer.RowBuffer.SaveRow | src/dblib/buffering.h:532-554 | Afterwards all rows own their data, and only block ownership has changed. |
| RowBuffer.RowBuffer.AddRow | src/dblib/buffering.h:486-527 | Refused, with no change, exactly when the buffer is full; otherwise the row gets the next number and the slot returned. |
| RowBuffer.RowBuffer.Transfer | src/dblib/buffering.h:349-368 | Hands out the number and the data with which the row arrived, and moves the cursor on. |
| RowBuffer.RowBuffer.GetRow | src/dblib/dblib.c:1947-1963 | Delivers a buffered row by number, and the next row is then the one after it; other numbers change nothing. |
| RowBuffer.RowBuffer.SetRow | src/dblib/dblib.c:2061-2076 | Finds exactly the buffered rows, and what the cursor then says. |
| RowBuffer.RowBuffer.ClrBuf | src/dblib/dblib.c:2858-2873 | With buffering on, clears the oldest rows but never the newest; and when any cursor survives. |
| RowBuffer.RowBuffer.FetchRow | src/dblib/dblib.c:2144-2156 | Saves, reads and adds: the arrivals grow by the row, which is current. |
| RowBuffer.RowBuffer.HandOut | src/dblib/dblib.c:2144-2188 | A row from the server is buffered and handed out, and the cursor is then behind all rows. |
| RowBuffer.RowBuffer.Replay | src/dblib/buffering.h:361-368 | A jump to row N and then walking gives rows N up to the last received, with their data, and then no current row, wrapped or not. |
| RowClient.Process.constructor | src/dblib/buffering.h:462-480 | A result that has rows begins with an empty buffer and is open. |
| RowClient.Process.NextRow | src/dblib/dblib.c:2110-2196 | On a closed result no more rows and no change; otherwise the next buffered row, a full buffer, a row from the server, or the end, which closes the result; and a failed assertion exactly for a lost cursor. |
| RowClient.Process.GetRow | src/dblib/dblib.c:1947-1963 | A buffered row by number, on an open or a closed result, as the machine answers. |
| RowClient.Process.SetRow | src/dblib/dblib.c:2061-2076 | A buffered row made current, or a cursor lost on the oldest one, as the machine answers. |
| RowClient.Process.ClrBuf | src/dblib/dblib.c:2858-2873 | Rows cleared, whatever the cursor is, as the machine answers. |
| RowClient.Process.Run | src/dblib/dblib.c:1947-2196 | Every sequence of the four calls answers as the machine does, up to a failed assertion. |
| RowClient.StateValid | src/dblib/buffering.h:404-427 | The states of the machine that the program can be in are valid ones, so the laws apply to them. |
| RowClient.RowsAreArrivals | src/dblib/dblib.c:1947-2196 | In every run each row delivered is one that arrived, under its number and with its data. |
| RowClient.ReadersNeverAbort | src/dblib/dblib.c:1947-2196 | A client that neither makes rows current nor clears any never fails an assertion. |
| RowClient.LostBy | src/dblib/buffering.h:404-427 | Exactly which call makes the next next-row call fail: the oldest row made current in a buffer with room, or clearing up to the current row. |
| RowClient.KeptRows | src/dblib/dblib.c:2863-2871 | Clearing n rows leaves, of the rows held, those above the n oldest and in any case the newest; all of them without buffering or for an n that is not positive. |
| RowClient.OnlyBuffered | src/dblib/dblib.c:1950-1962 | Rows are found by number exactly if they are among the last that arrived, as many as are buffered; other numbers change nothing. |
| RowClient.AtTheEnd | src/dblib/dblib.c:2130-2174 | After the last buffered row: a full buffer is reported and takes nothing; else the server's row is numbered, buffered and handed out, or the result closed. |
| RowClient.JumpedTo | src/dblib/dblib.c:2061-2076 | A row made current comes next; the oldest one is followed by a full-buffer answer or a failed assertion. |
| RowClient.Replayed | src/dblib/dblib.c:2110-2114 | After a jump back to a buffered row, the next-row calls give all rows behind it while the result is open, and none once it is closed. |
| RowClient.Process.MakeSpace | src/dblib/dblib.c:2858-2873 | A client at the end of the buffered rows has room again after clearing, and still gets the same next row. |
| RowClient.Process.ReadOn | src/dblib/dblib.c:2116-2196 | One more row for a client that clears rows when the buffer is full: it is the row that arrives. |
| RowClient.Process.ReadEnd | src/dblib/dblib.c:2171-2174 | The end of the server's rows is reported and closes the result. |
| RowClient.ReadAll | src/dblib/dblib.c:2110-2196 | A client that reads straight on gets exactly the rows that arrive, at every capacity, and then the end. |
| RowRuns.StepRefines | src/dblib/buffering.h:270-554 | Each of add, save and delete keeps the invariant and is the queue's operation. |
| RowRuns.EveryRunIsAQueue | src/dblib/buffering.h:79-103 | From allocation on, after every sequence of adds, saves and deletes, the ring is sound, the consistency check holds, and it stands for the queue that the same calls give. |
| Packets.ParseEncoded | misc/bounce.c:269-293 | A packet at the front of a stream is recognised with its length, payload and rest. |
| Packets.EncodedHeader | misc/bounce.c:64 | A packet on the wire begins with 0x12, its status and its whole length, high byte first, and is at most 4096 bytes long. |
| Packets.PayloadsOfWire | misc/bounce.c:262-294 | What was put in packets comes out of the wire in order. |
| Packets.EncodedBuffer | misc/bounce.c:149-168 | A buffer with type and length field in place is the encoding of a packet. |
| Framing.GetPacket | misc/bounce.c:262-294 | However the bytes arrive: a whole packet and the stream behind it, an end, or an error for bad lengths and failures only. |
| Framing.PutPacket | misc/bounce.c:296-314 | However much each send takes, the whole packet goes out, unless the socket fails. |
| Framing.Session.SendPacket | misc/bounce.c:155-158 | The buffered packet goes on the wire with its status and joins the packets sent. |
| Framing.Session.SendFull | misc/bounce.c:155-161 | A full packet goes out with status 0 and the next one is begun. |
| Framing.Session.MakeRoom | misc/bounce.c:149-161 | A new packet is begun, a full one sent first with status 0; nothing that was pushed is lost. |
| Framing.Session.Store | misc/bounce.c:165-168 | The bytes are appended and the length field is right again. |
| Framing.Session.Push | misc/bounce.c:143-170 | Takes as many bytes as fit; wire and buffer hold all that was pushed; of what was received, exactly the unread part of the packet at hand is lost. |
| Framing.Session.Flush | misc/bounce.c:638-643 | The buffered packet is sent as the last of its message. |
| Framing.Session.Refill | misc/bounce.c:122-133 | The next packet's payload is at hand, and nothing changes about the bytes to be pulled. |
| Framing.Session.Take | misc/bounce.c:134-137 | Hands out exactly the first bytes of the packet at hand, as many as are asked for or all that are left, and leaves the others. |
| Framing.Session.Pull | misc/bounce.c:103-141 | Flushes, and hands out as many bytes as are asked for of the packet at hand or else of the next one; handed out and still to come are together what was to come before. |
| FramingRuns.PushAll | misc/bounce.c:143-170 | Pushing in portions of any sizes until all is accepted loses and adds nothing, and every packet sent on the way has status 0. |
| FramingRuns.SendMessage | misc/bounce.c:143-170 | A message pushed in any portions and flushed is packets of full size with status 0 and a last nonempty one with status 1. |
| FramingRuns.ReceiveAll | misc/bounce.c:103-141 | Pulling in any amounts gives exactly the payloads, unless the socket fails. |
| FramingRuns.WireCarries | misc/bounce.c:103-170 | The wire after a flushed message carries exactly what was pushed, in well-formed packets. |
| FramingRuns.SendTo | misc/bounce.c:143-170 | A message sent over a new connection is what its wire carries, unless the socket fails. |
| FramingRuns.ReceiveFrom | misc/bounce.c:103-141 | All that a well-formed wire carries is received, unless the socket fails. |
| FramingRuns.Deliver | misc/bounce.c:103-170 | End to end, for any portions pushed and pulled: the receiver gets exactly the bytes sent, unless one of the sockets fails. |
| SessionRuns.SpokenOn | misc/bounce.c:155-161 | Packets that do not end a message add their payload to the message being made up. |
| SessionRuns.SaidMore | misc/bounce.c:143-170 | A push adds what it accepted to that message, whether it is on the wire or still in the buffer. |
| SessionRuns.SaidAll | misc/bounce.c:111-119 | A pull ends the message, and only if there was a push since the last one. |
| SessionRuns.Do | misc/bounce.c:103-170 | One call: the accepted bytes join the message, or the message ends; what was to be pulled is what was handed out or discarded and what is still to come. |
| SessionRuns.RunSession | misc/bounce.c:103-170 | Any sequence of pushes and pulls: the messages on the wire are the accepted bytes of each group of pushes; each pull gives as many bytes as asked for of those at hand; each push discards exactly what the pull before it left of its packet. |
| SessionRuns.WireSays | misc/bounce.c:103-170 | The payloads on a session's wire, with what waits in its buffer, are what it said. |
| SessionRuns.Talking | misc/bounce.c:103-170 | Two sessions with any calls on both, the second fed by the first: what it handed out, discarded and holds, and what the first has not sent, are together the first one's messages in order. |
| Pivot.SameText | src/dblib/dbpivot.c:143-145 | The comparison sees the text before the first NUL. |
| Pivot.ColEqual | src/dblib/dbpivot.c:133-155 | Columns are equal when what the comparison sees of them is; being NULL is not seen. |
| Pivot.KeysEqual | src/dblib/dbpivot.c:538-552 | Keys are equal when all their columns are, as seen. |
| Pivot.AggEqual | src/dblib/dbpivot.c:689-711 | An entry belongs to a row when both keys agree. |
| Pivot.Find | src/dblib/dbpivot.c:60-73 | The first entry with the row's key, -1 exactly when there is none. |
| Pivot.KeysDistinct | src/dblib/dbpivot.c:1079-1095 | No key has two entries. |
| Pivot.OldKeyStep | src/dblib/dbpivot.c:1079-1097 | A row with a known key changes that entry only, and group-by is kept. |
| Pivot.NewKeyStep | src/dblib/dbpivot.c:1079-1097 | A row with a new key appends an entry, and group-by is kept. |
| Pivot.AddRow | src/dblib/dbpivot.c:1079-1097 | One round keeps group-by for one more row. |
| Pivot.ComputePivot | src/dblib/dbpivot.c:1069-1099 | One entry for each distinct key in order of first appearance, with the key columns of the first row of its group and the fold of its values in order of arrival from its starting value. |
| PivotLaws.KeysAreTheRowsKeys | src/dblib/dbpivot.c:1079-1095 | The entries' keys are exactly the keys of the rows. |
| PivotLaws.KeysInOrder | src/dblib/dbpivot.c:1079-1095 | They stand in the order in which they first appear. |
| PivotLaws.CountIs | src/dblib/dbpivot.c:1150-1160 | A count is its start plus the number of values that are not NULL, exactly if that is in the range of 32 bits and else shifted into it. |
| PivotLaws.SumIs | src/dblib/dbpivot.c:1162-1182 | A sum is its start plus the values that are not NULL, exactly if that is in the range of the column (0 to 255, 16 or 32 bits signed) and else shifted into it by a multiple of 2^8, 2^16 or 2^32. |
| PivotLaws.TextValues | src/dblib/dbpivot.c:1210-1214 | A text that is not NULL leaves a sum, minimum or maximum at zero. |
| PivotLaws.MinIs | src/dblib/dbpivot.c:1218-1238 | The least of start and values, and one of them. |
| PivotLaws.MaxIs | src/dblib/dbpivot.c:1274-1294 | The greatest of start and values, and one of them. |
| PivotLaws.CountsConserved | src/dblib/dbpivot.c:1069-1099 | Every value that is not NULL is in exactly one group. |
| PivotLaws.CountIncrease | src/dblib/dbpivot.c:1069-1099 | The counts of the computed entries grow together by the number of values that are not NULL. |
| PivotLaws.FoldPermuted | src/dblib/dbpivot.c:1150-1328 | Each aggregate gives the same for any order of the values of one column. |
| PivotLaws.OrderDoesNotMatter | src/dblib/dbpivot.c:1069-1099 | Reordering the rows changes neither the set of keys nor any key's value. |
| PivotLaws.PivotsAgree | src/dblib/dbpivot.c:1069-1099 | Pivots over reordered rows have equally many entries, and every entry of each is in the other. |
| PivotKeys.TrimEndIs | src/dblib/dblib.c:7559-7561 | Trimming takes off all blanks at the end and nothing else. |
| PivotKeys.KeptIs | src/dblib/dblib.c:7562-7570 | A text without blanks at the end is kept whole if it is shorter than the variable, and else up to one character less than its length. |
| PivotKeys.SeeFetched | src/dblib/buffering.h:330-358 | After a fetch the comparison sees the value as the variable keeps it, and after NULL what it saw before. |
| PivotKeys.SeeAfter | src/dblib/buffering.h:330-358 | After any fetches it sees the last value that was not NULL. |
| PivotKeys.MergedExactly | src/dblib/dbpivot.c:1021-1099 | For every result: two rows fall into one group if and only if in each key column the last values that are not NULL are kept alike. |
| PivotKeys.SafeShown | src/dblib/dblib.c:7558-7571 | In a column that is NOT NULL with short texts free of NUL, values are seen alike exactly when they are the same key. |
| PivotKeys.SafeIsRight | src/dblib/dbpivot.c:1069-1099 | With such key columns the groups are those of the keys. |
| PivotKeys.UnsafeColumn | src/dblib/dblib.c:7558-7571 | Any other column takes two different keys that are seen alike. |
| PivotKeys.UnsafeIsWrong | src/dblib/dbpivot.c:1069-1099 | With any other key column there is a result whose groups are wrong. |
| PivotKeys.RightExactlyWhenSafe | src/dblib/dbpivot.c:1021-1099 | The groups are right for every result that a schema allows if and only if all key columns are of that kind. |
| PivotKeys.WrongGroups | src/dblib/dbpivot.c:1079-1095 | Three results of two rows with different keys and one entry: NULL, texts that fill the column, text behind a NUL. |
| PivotKeys.SameKeysInOrder | src/dblib/dbpivot.c:1079-1095 | Where the groups are right the entries correspond to the distinct keys of the result, in order of first appearance. |
| PivotKeys.PivotOfResult | src/dblib/dbpivot.c:1069-1099 | And each entry's value is the fold of that key's values. |
| PivotKeys.FetchKey | src/dblib/dbpivot.c:1024-1053 | Fetching one row into the variables of a key gives the state after one more row. |
| PivotKeys.ReadInputs | src/dblib/dbpivot.c:1069 | Row by row, the variables hold what the fetches so far left in them. |
| PivotKeys.PivotResult | src/dblib/dbpivot.c:1021-1099 | Fetch and aggregate: with safe key columns, one entry for each distinct key of the result with the fold of its values. |
| TermScan.FirstOccurrence | src/tds/bulk.c:1331-1358 | The scan stops at the first occurrence of the terminator. |
| TermScan.NoOccurrence | src/tds/bulk.c:1331-1358 | It finds nothing if the terminator occurs nowhere. |
| TermScan.ScanMeans | src/tds/bulk.c:1367-1424 | The field is what stands before the first terminator; without one, nothing left is the end and anything else a failure. |
| TermScan.RotatedCompare | src/tds/bulk.c:1345 | Comparing the rotating window with a shifted part of the doubled terminator decides whether the window, unrolled, is the terminator. |
| TermScan.RotateStep | src/tds/bulk.c:1352-1356 | Replacing the oldest byte moves the window on by one. |
| TermScan.FileStream.Read | src/tds/bulk.c:1337-1359 | The bytes of the file in order up to the terminator or the length asked for, and no terminator is passed over. |
| TermScan.CopyStream | src/tds/stream.c:162-179 | For chunks of any size, the field before the first terminator, or a failure if there is none. |
| TermScan.BcpFread | src/tds/bulk.c:1367-1424 | The field before the first terminator with the file just behind it; an end only when nothing is left; a failure for anything else without a terminator. |
| HostLaws.PrefixReadsBack | src/dblib/bcp.c:850-881 | What the reader makes of a written prefix, for lengths that fit and lengths that do not. |
| HostLaws.FieldRoundTrip | src/dblib/bcp.c:1175-1387 | A field comes back and leaves the file just behind it, in every file, if and only if the terminator does not occur early or the planned length is the written one. |
| HostLaws.SyncWhenItFits | src/dblib/bcp.c:1210-1263 | For formats without a terminator and lengths that fit, that condition in terms of type, prefix, column length and data length. |
| HostLaws.DataComesBack | src/dblib/bcp.c:1003-1011 | Nonempty data comes back whole, or its first bytes up to the column's length. |
| HostLaws.BodyIs | src/dblib/bcp.c:1003-1011 | The bytes of a field in the file are all of the data, or the first ones up to the column's length. |
| HostLaws.UsualLayout | src/dblib/bcp.c:830-848 | What stands before the data when no prefix length is specified, for each kind of type; host columns outside the table are not written. |
| HostLaws.UnmappedRead | src/dblib/bcp.c:1205-1210 | A host column outside the table is read with a prefix only if one was specified. |
| HostLaws.SignedIs | src/dblib/bcp.c:1223-1232 | Prefixes of two and four bytes hold signed numbers. |
| HostLaws.NullComesBack | src/dblib/bcp.c:1217-1256 | NULL comes back as NULL exactly with a terminator, a one-byte prefix or a zero column length. |
| HostLaws.NullInFixedColumn | src/dblib/bcp.c:1260-1263 | NULL in a fixed-length column without a terminator is never read back in place. |
| HostLaws.RowReadsBack | src/dblib/bcp.c:1163-1388 | A row in sync comes back field by field, with the file at the next row. |
| HostFileLaws.EndOfFile | src/dblib/bcp.c:1052-1071 | At the end of the file the reader stops normally if and only if the first column needs bytes. |
| HostFileLaws.WiderThanTable | src/dblib/bcp.c:1192-1197 | A host column beyond the columns of the table makes the row fail. |
| HostFileLaws.FileReadsBack | src/dblib/bcp.c:968-1020 | Any number of rows comes back in order, and then a normal end. |
| HostFileLaws.FieldCut | src/dblib/bcp.c:1209-1344 | A field cut short is an end of file, or a failure if part of a terminated field is there. |
| HostFileLaws.RowCut | src/dblib/bcp.c:1052-1071 | A row cut short is not read; a cut in the first column is a normal end except inside terminated data, any other a failure. |
| HostFileLaws.CutFile | src/dblib/bcp.c:1163-1388 | Reading a file cut after any byte gives the rows before the cut and the end that the cut decides. |
| HostFileLaws.WholeRowsEnd | src/dblib/bcp.c:1163-1388 | The rows before the cut are as many as end before it: the next one does not. |
| HostFileLaws.RowsBeforeCut | src/dblib/bcp.c:1163-1388 | They are the first rows of the file, as they come back. |
| HostFileLaws.CleanBehindAll | src/dblib/bcp.c:1052-1071 | A cut behind all rows is a normal end. |
| HostFileLaws.EndAtCut | src/dblib/bcp.c:1052-1071 | Any other end depends on where in its row the cut is. |
| HostFile.WriteField | src/dblib/bcp.c:999-1017 | Writes the prefix with the uncut length, the first bytes of the data up to the column's length, and the terminator behind what was written. |
| HostFile.WriteRow | src/dblib/bcp.c:982-1018 | Writes the row's columns; host columns without a table column are passed over. |
| HostFile.ExecOut | src/dblib/bcp.c:968-1038 | The file holds the selected rows and the count is their number; fails exactly when `firstrow` is beyond the end. |
| HostFile.MakePlan | src/dblib/bcp.c:1241-1263 | The steps from prefix, column length and type give the specified length and NULL flag. |
| HostFile.ReadColumn | src/dblib/bcp.c:1209-1344 | Reading from a file agrees with the specification: value and position, end of file, or failure. |
| HostFile.NextColumn | src/dblib/bcp.c:1052-1071 | One column keeps the row's result, or stops with its status: a normal end only at end of file in the first column. |
| HostFile.ReadHostfile | src/dblib/bcp.c:1163-1388 | Reads the row that the specification reads and leaves the file behind it; an end in the first column is normal, elsewhere a failure. |
| Load.EveryRowAccounted | src/dblib/bcp.c:1493-1605 | Rows read are the sum of rows skipped, rejected and offered; skipped are the rows before `firstrow`, or all. |
| Load.NumbersAre | src/dblib/bcp.c:1504-1582 | The numbers of the rows offered are those not below `firstrow` whose conversion did not fail. |
| Load.OfferedAre | src/dblib/bcp.c:1504-1582 | The rows offered are those with these numbers, in order. |
| Load.RejectedAre | src/dblib/bcp.c:1504-1578 | The rows rejected are as many as have a number from `firstrow` on and failed to convert. |
| Load.OptionsAre | src/dblib/bcp.c:541-579 | After any settings each option has the value set last, where a limit below one stands for ten and a first row below one for the first; and what they are at first. |
| Load.OfferRow | src/dblib/bcp.c:1584-1604 | A row is offered; a batch is committed exactly when it is full, so fewer accepted rows than a batch remain. |
| Load.Dispose | src/dblib/bcp.c:1513-1604 | A row that was read is skipped, rejected or offered, and what the counters then are. |
| Load.Round | src/dblib/bcp.c:1493-1605 | One round keeps the accounting, the batch bound and the error bound, or stops for the stated reason. |
| Load.ExecIn | src/dblib/bcp.c:1456-1625 | Over every run: which rows are read and offered; rejected rows never exceed the limit, and reach it exactly when the load stops for it; accepted rows are offered ones in the same order; every commit but the last is of a full batch; the exact count returned; success exactly at a normal end of file. |
| Load.OfferedFrom | src/dblib/bcp.c:1504-1582 | Without conversion errors the rows offered are those from `firstrow` on. |
| Load.LastrowHasNoEffect | src/dblib/bcp.c:976-979 | The rows copied out are those from `firstrow` on, whatever `lastrow` is. |
| Load.ReadsFirstRows | src/dblib/bcp.c:1163-1388 | However far a copied-out file is read, the rows are its first ones and the rest of the file holds the others. |
| Load.ReadsOn | src/dblib/bcp.c:1163-1388 | Reading on never fails, and ends exactly when all rows were read. |
| Load.LoadedRows | src/dblib/bcp.c:1456-1625 | A load of a copied-out file, wherever it stops, has offered the first of the copied rows, and all when it was read to the end. |
| Load.CopyOutAndIn | src/dblib/bcp.c:968-1625 | Copy out and load again: the server is offered the copied rows in order, all of them unless a batch fails, and only that makes the load fail. |
| ProgVar.PrefixValueIs | src/dblib/bcp.c:2230-2243 | The number in a prefix of one, two or four bytes, by its bytes and the byte order; the longer ones are signed. |
| ProgVar.GetTermVar | src/dblib/bcp.c:2321-2335 | The place of the first terminator. |
| ProgVar.GetColData | src/dblib/bcp.c:2222-2294 | NULL if and only if a given limit is zero or negative; otherwise, for types of varying size, as many bytes as the least limit. |
| ProgVar.NullRule | src/dblib/bcp.c:2244-2276 | NULL exactly when a given limit is zero or negative. |
| ProgVar.LeastRule | src/dblib/bcp.c:2250-2277 | The length is one of the given limits and none is smaller. |
| ProgVar.FixedRule | src/dblib/bcp.c:2263-2277 | A fixed type gives its size, or fewer bytes when the terminator comes first. |
| ProgVar.NoStringLength | src/dblib/bcp.c:2279-2280 | The length is never negative, so the length of a C string is never taken. |

## Left out

- Load.ExecIn: the error file, messages and file-closing errors are not modelled, and which rows fail to convert is a parameter.
- Load.CopyOutAndIn: tables of 2^31 - 1 or more rows are excluded, since the row counter of the source is an int.
- HostFile.WriteField: the prefix length that a column gets by default is computed from type and nullability each time instead of being stored in the column.
- HostFile.ExecOut: write errors are not modelled; the table's rows are given rather than fetched.
- HostFile.ReadColumn: read errors other than end of file, fields over 2 GB and failing allocations are not modelled; a prefix length above four, which the source asserts away, counts as none.
- HostLaws.FieldRoundTrip: conversion between types, character sets and the trimming of trailing blanks are taken to be the identity, so it speaks of the bytes of the file.
- TermScan.BcpFread: conversion of character sets while reading is not modelled.
- ProgVar.GetTermVar: a variable without its terminator is excluded; the source then reads beyond the variable.
- RowClient.Process.NextRow: compute rows, errors of the server and the copying into bound variables are not modelled.
- RowBuffer.RowBuffer.constructor: changing the capacity and freeing the buffer are not modelled; a buffer starts at its allocation.
- PivotLaws.CountIncrease: needs counts that do not overflow an int; overflow of signed numbers, undefined in C, is taken to wrap.
- PivotKeys.Fetch: date columns, which are converted to text, and conversion between types are not modelled; texts that differ in trailing blanks only count as the same key.
- Pivot.ComputePivot: floating-point columns and the list of column keys are not modelled; the value with which an entry starts, which the source leaves uninitialised, is a parameter.
- TcpRuns.EveryCapture: nothing is promised of what a reader makes of the bytes behind a torn record when the program goes on, since they are taken for the rest of that record and the outcome depends on their values.
- TcpDump.Flow.WriteData: the time stamp is a parameter, and failing to create the file is not modelled.
- Framing.GetPacket: the socket gives any number of available bytes; time-outs are not modelled.
- The detection of TLS inside packets, the encrypted packet loops and the threads of the bounce program.
- Reading of pivoted rows and rebuilding of the result's description.
- The unescape functions of the other tools, which differ from the modelled one.
- Format files, `bcp_colfmt` checks, and the trimming of blanks: single branches.
- Allocation failures everywhere, and freeing of memory other than the row buffer's references.
- The protocol layer, the ODBC and CT-Library drivers, configuration, character-set tables and platform code.
