# A verified model of the http-proxy core

The proxy accepts client connections, forwards pipelined HTTP/1.1 requests to servers and forwards the responses back.
This project models the parts whose correctness is not visible in any one function, and proves what they promise.

* **Hash table** (`Bits.dfy`, `HashLoad.dfy`, `HashTable.dfy`): every table of the proxy is a uthash table, with two linked
  structures over the same nodes and buckets that double. The class has the real links and counters; its invariant is the
  integrity check `HASH_FSCK` together with a bound on the load that no comment states: while expansion is not given up,
  the sum over the buckets of max(count, 10(expand_mult + 1) - 1) is at most 19 per bucket, whatever the hash function is.
* **List sorts** (`MergeSort.dfy`, `ListSort.dfy`): the four in-place merge sort macros, as one set of methods over nodes
  with a parameter for the form of the list, refine one merge sort on sequences, which is the only stable sort.
* **Substring search** (`Kmp.dfy`): the two table builders and the four searches of `utstring.h`. The backward ones are
  proved through the reversed needle and haystack.
* **Byte streams** (`Bytes.dfy`, `StrBuf.dfy`, `Conn.dfy`, `Reader.dfy`): a connection with its buffer, over a socket that
  delivers any non-empty part of what arrives and accepts any non-empty part of what is sent, until it fails. The buffer
  is invisible to any sequence of reads exactly as long as the output has room for what the copies among them send.
* **Headers and bodies** (`Numerals.dfy`, `Headers.dfy`, `NetData.dfy`, `Chunked.dfy`, `Transfer.dfy`): fetching, parsing and
  printing of header fields with offsets into a growing buffer; forwarding of bodies, chunked or of known length. Each method is tied to a
  function on byte sequences, for any segmentation and also when the output fails part-way; round trips and byte-exactness are
  proved about those functions. Numbers in the streams are related to their numerals, written by division and remainder.
* **Pipelining** (`Links.dfy`, `EventLoop.dfy`, `Pipeline.dfy`, `Order.dfy`, `Context.dfy`): the event queue with handlers that
  post further events; the two coroutines of a client as a state machine from the moment the client is accepted, a step for
  each segment between two yields, with any interleaving and with servers that answer in order on their connections; wake-ups and
  the order of the responses over all its runs; and the linked list that the coroutines share, whose methods implement the
  steps, down to the round of the event loop.
* **Connection pool** (`ConnPool.dfy`): the lists of idle connections behind head nodes, as a map from endpoints to stacks.

Facts about the code that the proofs bring out:

* A response with an interim status other than 100 (102 or 103, say) removes its request from the queue, and responses of
  different servers can overtake each other from then on. `Ordering.OrderExact` states exactly when all responses are in the order
  of the requests: when each is read from the connection of the first request that has no final response. That always holds
  on one connection (`Ordering.OneConnection`), and as long as no such response came (`Ordering.ResponsesInOrder`).
  `Ordering.SkippingOvertakes` is a run in which a client gets its responses in the wrong order.
* The chunked transfer writes CRLF after every line, whatever the line end was, so it is byte-exact if and only if every
  line of the body ends in CRLF (`Chunked.BodyExact`, `Chunked.LoneLfRewritten`). A chunk line without a number counts as size -1
  and forwards one byte (`Chunked.NoNumber`).
* `conn_copy` ignores a failure to write the buffered part of the data: it still returns 0 when nothing else had to be sent, so
  its answer to an output that fails depends on what happened to be buffered (`Readers.CopyShowsBuffer`). A read through the buffer
  is the read of an unbuffered reader if and only if the output takes all that is to be sent (`Readers.ServeAll`).
* Printing a header puts a space after each colon, so headers that were fetched may not fit the buffer when they are printed and
  fetched again. Parsing, printing and parsing is the identity exactly when they fit (`Headers.ParsePrintParse`,
  `Headers.PrintDoesNotFit`).
* `conn_gets` tests its limit for equality only. That suffices, because the buffer grows by one byte between tests
  (`Headers.FetchBound`).
* An empty start line makes `net_fetch_http` return success with an empty buffer (`Headers.EmptyStart`). The end of the stream
  before or inside a message head is a failure (`Headers.HeadCutShort`).
* The pattern of a header line is not anchored and its bracket also admits a backslash; the model follows the pattern.
* `conn_addrpool_del` does not clear `apool`, so the pointer dangles afterwards.
* The searches of `utstring.h` cast lengths to `int`. The forward one casts the length of the haystack and of the needle, and is
  exact for every needle exactly on haystacks shorter than 2^31 bytes (`Kmp.ExactIff`); the backward one casts that of the needle
  only, and is exact on every haystack exactly for needles shorter than that (`Kmp.ExactIffR`).
* Building the failure table compares fewer than 2n times in its inner loop. The tests whether to copy an entry add n - 1, so the
  sum is within 2n exactly when the inner loop makes at most n + 1 comparisons, which it may exceed (`Kmp.MoreThanTwice`).

A method that has a loop, changes fields or relinks nodes in the source is a method here too, with the same branches; the
functions beside it say what it computes. Socket results are parameters chosen by the surroundings (`arriving`, `room`),
hashing is an uninterpreted function, and what an event handler does is a list of actions.

## Model

| member | source | states |
|---|---|---|
| `Kmp.BuildTable` | uthash/utstring.h:156-191 | the table is exactly the failure table: each entry the longest border whose next character differs, the last one the longest border of the whole needle; fewer than 2n comparisons in the inner loop, and n - 1 more in the tests of the entries |
| `Kmp.MoreThanTwice` | uthash/utstring.h:156-191 | so the total can exceed 2n: for the needle abaaaa, of 6 characters, the builder makes 13 comparisons |
| `Kmp.BuildTableR` | uthash/utstring.h:196-232 | the backward table is the forward table of the reversed needle, indices counted from the end; the same bounds on comparisons |
| `Kmp.TableUnique` | uthash/utstring.h:156-191 | a needle has only one failure table, so the specification of the builder leaves nothing open |
| `Kmp.Collapse` | uthash/utstring.h:174-184 | copying the shorter entry when the next characters agree gives the longest border whose next character differs |
| `Kmp.LongestExtend` | uthash/utstring.h:166-173 | the candidate that the inner loop stops at gives the longest border one position on |
| `Kmp.Shift` | uthash/utstring.h:236-265 | moving to the table entry after a mismatch skips no occurrence |
| `Kmp.FindFrom` | uthash/utstring.h:236-265 | for every needle: the result for the part of the haystack and of the needle that the casts to int leave, which is the least occurrence, or -1 if and only if there is none, when the needle or the haystack is shorter than 2^31; at most 2n comparisons |
| `Kmp.FindFromR` | uthash/utstring.h:269-299 | the greatest occurrence, -1 if and only if there is none, for needles shorter than 2^31 bytes, and the first alignment for longer ones that agree there in the characters compared; at most 2n comparisons |
| `Kmp.Find` | uthash/utstring.h:303-345 | the least position at or after the start, counted from the end when negative, where the needle occurs, -1 if and only if there is none, when the needle or the rest of the string is shorter than 2^31; for longer ones what the casts leave |
| `Kmp.FindR` | uthash/utstring.h:349-387 | the greatest position whose occurrence ends at or before the start, -1 if and only if there is none, for needles shorter than 2^31; for longer ones as in Kmp.FindFromR |
| `Kmp.FindsExact` | uthash/utstring.h:250-259 | what the casts leave is the exact result on what the search sees when either length is below 2^31 |
| `Kmp.ExactIff` | uthash/utstring.h:250-259 | the forward search is exact for every needle if and only if the haystack is shorter than 2^31 bytes |
| `Kmp.ExactIffR` | uthash/utstring.h:278-285 | the backward search is exact on every haystack if and only if the needle is shorter than 2^31 bytes |
| `MergeSort.PassPermutes` | uthash/utlist.h:108-165 | a pass of bottom-up merging is a permutation, whatever the comparison function does |
| `MergeSort.SortPermutes` | uthash/utlist.h:108-165 | so is the whole sort |
| `MergeSort.MergeSorts` | uthash/utlist.h:134-150 | merging two ordered runs gives an ordered run in which equivalent elements keep their order |
| `MergeSort.PassDoublesRuns` | uthash/utlist.h:117-163 | a pass turns ordered runs of some length into ordered runs of twice the length |
| `MergeSort.SortIsStable` | uthash/utlist.h:108-165 | for a total preorder the bottom-up merge sort is a stable sort |
| `MergeSort.StableSortUnique` | uthash/utlist.h:108-165 | a list has only one stable sort, so the previous row leaves nothing open |
| `ListSort.SortList` | uthash/utlist.h:108-304 | LL_SORT2, DL_SORT2 and CDL_SORT2 (and HASH_SRT) relink the same nodes; when any two nodes compare and the comparison is transitive, cmp(t[i], t[j]) <= 0 for all i < j in the result t and nodes that compare equal keep their order; prev mirrors next, the tail or head->prev is the last node, and the circular form stays circular |
| `ListSort.SortSorts` | uthash/utlist.h:108-304 | the merge sort on sequences sorts by the comparison function itself: a result that is not positive keeps the order |
| `ListSort.SortPass` | uthash/utlist.h:184-219 | one pass of the in-place sort builds exactly the merged list and tells whether another pass is needed |
| `ListSort.MergeRuns` | uthash/utlist.h:197-214 | the inner loop relinks two runs into their merge |
| `ListSort.Choose` | uthash/utlist.h:197-209 | the next node is the head of the first run unless that is empty or cmp of the heads is positive, so equal nodes keep their order |
| `ListSort.Emit` | uthash/utlist.h:210-216 | the chosen node is linked to the end of the list being built |
| `ListSort.ClosePass` | uthash/utlist.h:220-221 | the last node ends the list, or closes the circle |
| `ListSort.CountRun` | uthash/utlist.h:190-195 | the counting loop finds the end of a run |
| `HashTable.HashTable.MakeTable` | uthash/uthash.h:141-158 | a fresh table of 32 empty buckets meets the integrity conditions and the load bound |
| `HashTable.FirstMatch` | uthash/uthash.h:598-609 | the entry has the key and no entry of the chain before it does; a null result means that no entry has |
| `HashTable.HashTable.Find` | uthash/uthash.h:94-104 | find returns an entry with an equal key if and only if one exists |
| `HashTable.HashTable.FindInBkt` | uthash/uthash.h:598-609 | the first entry of the bucket chain with an equal key |
| `HashTable.HashTable.Add` | uthash/uthash.h:173-196 | the item joins the end of the insertion order; the integrity conditions hold again, through an expansion if one is due |
| `HashTable.HashTable.LinkLast` | uthash/uthash.h:184-186 | the item is linked behind the tail |
| `HashTable.HashTable.PushFront` | uthash/uthash.h:615-618 | the item is linked in front of a chain |
| `HashTable.HashTable.AddToBkt` | uthash/uthash.h:612-623 | the item is put at the front of its chain and the buckets are expanded exactly when its count reaches the threshold and expansion was not given up; the load bound is kept |
| `HashTable.HashTable.Rehome` | uthash/uthash.h:689-698 | one node moves to its new bucket, and the count, the multiplier and nonideal_items are those of the longer chain |
| `HashTable.HashTable.SplitBucket` | uthash/uthash.h:682-701 | the nodes of old bucket i go to buckets i and i + n, each chain in the reverse of its old order |
| `HashTable.HashTable.ExpandBuckets` | uthash/uthash.h:667-713 | expansion moves each node to hashv & (2n - 1) and keeps the node set and num_items; counts are chain lengths, nonideal_items is the sum of the excesses over the ideal length, and ineff_expands and noexpand follow from it |
| `HashTable.HashTable.EmptyBuckets` | uthash/uthash.h:673-681 | the shift and mask formula is the least integer not below the new load, and it is between 1 and 10, so the division by it is defined |
| `Bits.ShiftMaskIsCeil` | uthash/uthash.h:649-664 | (n >> k) + (n & (2^k - 1) ? 1 : 0) is n / 2^k rounded up |
| `Bits.MaskIsMod` | uthash/uthash.h:198-201 | masking with a power of two less one is the remainder |
| `HashTable.SlotDoubles` | uthash/uthash.h:687-688 | with twice the buckets a node stays at its index or moves up by the old bucket count |
| `HashLoad.ChangeKeepsLoaded` | uthash/uthash.h:612-636 | adding below a bucket's threshold, and removing, keep the sum of max(count, 10(m+1)-1) at most 19 per bucket |
| `HashLoad.ExpansionLoaded` | uthash/uthash.h:689-693 | expansion re-establishes that sum, whatever the hash function did |
| `HashLoad.IdealRange` | uthash/uthash.h:678-680 | the ideal chain length is between 1 and 10 whenever an expansion starts |
| `HashLoad.LoadBound` | uthash/uthash.h:612-623 | that sum bounds the number of items by 19 per bucket |
| `HashTable.HashTable.LoadIsBounded` | uthash/uthash.h:612-623 | while noexpand is 0: num_items <= 19 num_buckets, num_buckets = 2^log2_num_buckets, and every chain is at most 10(expand_mult + 1) long |
| `HashTable.HashTable.Delete` | uthash/uthash.h:215-248 | the item leaves the insertion order and its chain, from wherever it is; the integrity conditions hold again |
| `HashTable.HashTable.DelInBkt` | uthash/uthash.h:626-636 | the node is unlinked from its chain and the count drops by one |
| `HashTable.HashTable.UnlinkOrder` | uthash/uthash.h:227-242 | the node is unlinked from the insertion order, with head and tail corrected |
| `HashTable.HashTable.Iterate` | uthash/uthash.h:868-875 | iteration visits the items in insertion order, less those deleted |
| `HashTable.HashTable.DeleteAll` | uthash/uthash.h:868-875 | deleting each element while iterating, as the modules do at their end, empties the table |
| `HashTable.HashTable.Sort` | uthash/uthash.h:720-805 | HASH_SRT leaves the table with its items sorted by the comparison function, ties in the order they had, and the tail set to the last |
| `HashTable.Step` | uthash/uthash.h:94-248 | one operation on the table is one operation on an insertion-ordered multiset of keys |
| `HashTable.Run` | uthash/uthash.h:278-328 | every run of adds, deletes and finds from a fresh table is a run of that multiset, keeps the integrity conditions of HASH_FSCK and, while noexpand is 0, the load bound |
| `HashTable.DoesApply` | uthash/uthash.h:173-248 | without duplicate keys the multiset operations have one result each |
| `StrBufs.StrBuf.constructor` | core/strbuf.c:9-14 | an empty buffer |
| `StrBufs.CString` | core/strbuf.c:36-42 | the bytes before the first NUL |
| `StrBufs.StrBuf.Append` | core/strbuf.c:24-34 | the contents grow by the byte and a NUL follows them, whether or not the buffer is reallocated |
| `StrBufs.StrBuf.Cat` | core/strbuf.c:36-42 | the contents grow by the C string, up to its first NUL |
| `StrBufs.StrBuf.Reset` | core/strbuf.c:20-22 | the contents are empty |
| `StrBufs.CStringOf` | core/strbuf.c:36-42 | a C string ends at its first NUL and not before |
| `Streams.GetLineCRLF` | core/conn_io.c:98-121 | a line ended by CRLF is read whole and the CRLF consumed |
| `Streams.GetLineLoneEnd` | core/conn_io.c:98-121 | so is a line ended by LF, or by a CR that some other byte follows, which stays unread |
| `Streams.GetLineInverse` | core/conn_io.c:98-121 | whatever is read as a line is free of line ends and is followed in the stream by one of the three |
| `Streams.GetLineBound` | core/conn_io.c:98-111 | the text stays below the limit although the limit is tested with equality only |
| `Streams.GetLineIff` | core/conn_io.c:98-121 | a line is read if and only if there is text without a line end, within the limit, and a line end |
| `Streams.GetLineMore` | core/conn_io.c:98-121 | only the end of the stream leaves a line open: any other outcome does not depend on what follows |
| `Streams.GetLineOpen` | core/conn_io.c:98-121 | a stream that ends before the line does gives -1, also after a CR |
| `Conns.Conn.constructor` | core/conn.c:41-52 | a connection with an empty buffer over a socket |
| `Conns.Conn.Close` | core/conn.c:390-398 | a connection that was open gets nothing more |
| `Conns.Conn.TryRecv` | core/conn_io.c:8-39 | any non-empty part of what arrives, as far as it fits; -1 at the end |
| `Conns.Conn.TrySend` | core/conn_io.c:8-39 | any non-empty part of the data that the socket still accepts; -1 when it accepts none |
| `Conns.Conn.GetC` | core/conn_io.c:70-89 | the next byte of the stream as a signed char, wherever the bytes are buffered; the byte read is kept for conn_ungetc |
| `Conns.Conn.UngetC` | core/conn_io.c:91-96 | the byte just read is the next one again |
| `Conns.Conn.Gets` | core/conn_io.c:98-121 | the line that the unbuffered reader gets, the same bytes left, the same return value |
| `Conns.Conn.Read` | core/conn_io.c:42-68 | exactly the next len bytes, or failure and a closed connection when the stream has fewer |
| `Conns.Conn.Write` | core/conn_io.c:124-141 | all of the data is accepted and counted, or as much as there is room for before the connection closes |
| `Conns.Copy` | core/conn_io.c:143-175 | the first len bytes of the stream go out and are counted; what was received beyond them stays buffered; the result is 0 exactly when the input had them and what had to be sent after the buffered part was accepted; then, if the output is still open, it grew by exactly those bytes and tx by len; on failure the input has lost its buffered part and no more than the output took beyond it |
| `Conns.CopyRest` | core/conn_io.c:154-173 | the copy loop sends what the buffered part left, or fails because one side ended |
| `Conns.CopyBuffered` | core/conn_io.c:143-153 | the buffered part goes out first, and is consumed even when it is not accepted |
| `Conns.CopyArriving` | core/conn_io.c:154-173 | one round of the copy loop |
| `Conns.WroteTwice` | core/conn_io.c:124-141 | writing in two pieces is writing once, full output included |
| `Readers.PeekOne` | core/conn_io.c:70-96 | conn_getc and then conn_ungetc consume nothing, unless the byte reads as -1 |
| `Readers.Serve` | core/conn_io.c:42-175 | one read through the buffer gives the unbuffered reader's answer if and only if the output has room for what it sends, and then leaves the unbuffered reader's stream; what is sent is the same in any case |
| `Readers.ServeCopy` | core/conn_io.c:143-175 | the same for conn_copy, with what it leaves when there is no room: an end of the stream, bounded by what was buffered and by what the output took |
| `Readers.ServeAll` | core/conn_io.c:42-175 | any sequence of conn_getc, conn_getc and conn_ungetc, conn_gets, conn_read and conn_copy gives the unbuffered reader's answers, up to any point, if and only if the output has room for what the copies up to there send; then it leaves the same stream; the output gets the same bytes as far as it has room in any case, whatever recv and send do at a time |
| `Readers.CopyShowsBuffer` | core/conn_io.c:143-175 | for a copy that the output has no room for the buffer does show: with the same byte unread it fails when the byte is in the socket and returns 0 when it was buffered |
| `Readers.ReadsForward` | core/conn_io.c:42-175 | reading only moves forward: what is left is the end of what there was |
| `Headers.ParseLineLeftmost` | core/net_data.c:76-77 | the parser finds the leftmost match of the header pattern and fails only when there is none |
| `Headers.ParseLineIff` | core/net_data.c:76-77 | the parser matches if and only if the pattern matches somewhere |
| `Headers.ParseSplits` | core/net_data.c:76-77 | a match takes the line apart into anything without a match, the key, the colon, all the spaces and the value |
| `Headers.HeaderLineParsed` | core/net_data.c:76-77 | and a line put together that way is taken apart the same way |
| `Headers.KeyByteListed` | core/net_data.c:76 | the characters of a key are the letters, the hyphen and the backslash |
| `Headers.FetchBound` | core/net_handle.c:56-89 | the header buffer never exceeds HTTP_HEADER_MAXLEN - 1 bytes, on any input |
| `Headers.FetchAllMore` | core/net_handle.c:71-89 | the outcome of the fetching does not depend on what follows the message head, unless the stream ended inside it |
| `Headers.HeadCutShort` | core/net_handle.c:71-89 | a message head that is cut short anywhere by the end of the stream, its first byte included, fails |
| `Headers.NoLineEnd` | core/net_handle.c:71-77 | a stream without a line end fails |
| `Headers.EmptyStart` | core/net_handle.c:71-77 | an empty start line is a success with an empty buffer and table, and what follows it stays |
| `Headers.FieldsKept` | core/net_data.c:63-72 | recorded value offsets give the same values whatever is added to the buffer |
| `Headers.HeaderField` | core/net_data.c:124-136 | a new entry refers to the key and the value that the pattern finds in its line: the value begins behind the spaces after the colon |
| `Headers.HeaderRead` | core/net_handle.c:60-66 | a header line, with or without spaces after the colon, is read as its key and its value; a key of 32 bytes or more is not stored |
| `Headers.HeaderRefused` | core/net_handle.c:65-66 | a line that the pattern does not match makes the fetching fail |
| `Headers.FetchedFields` | core/net_handle.c:56-69 | fetching keeps the fields there were and adds only fields that can be printed and read back |
| `Headers.FetchPrinted` | core/net_data.c:245-254 | printed headers are fetched as the same keys and values in the same order, duplicates included, if and only if they fit the buffer, and otherwise the fetching fails |
| `Headers.LineTooLong` | core/conn_io.c:98-111 | a line that reaches the limit is not read, and the stream is not at its end |
| `Headers.ParsePrintParse` | core/net_data.c:124-254 | parsing, printing and parsing again gives the fields of the first parse if and only if what is printed fits the buffer, and otherwise it fails |
| `Headers.FetchAllPrinted` | core/net_handle.c:71-89 | a start line and printed headers are fetched as the same fields if and only if they fit the buffer |
| `Headers.PrintDoesNotFit` | core/net_handle.c:71-89 | they may not: after a start line, n lines a:b that are fetched whole and whose print, one byte longer each, is not |
| `NetDatas.NetData.ParseHeader` | core/net_data.c:124-136 | the key and value of the line are cut off by NULs in place and recorded |
| `NetDatas.NetData.GetHeaderLine` | core/net_handle.c:60-63 | a header line is added to the buffer with a NUL after it, and no recorded value changes |
| `NetDatas.NetData.FetchHeader` | core/net_handle.c:58-67 | one round of the loop |
| `NetDatas.NetData.FetchHeaders` | core/net_handle.c:56-69 | the buffer, the table, the stream and the status are those of the fetching on byte sequences |
| `NetDatas.NetData.FetchHttp` | core/net_handle.c:71-89 | the same for a start line and headers, with the buffer within its bound |
| `NetDatas.CatLine` | core/net_data.c:248-251 | one header line is appended |
| `NetDatas.NetData.AppendHeaders` | core/net_data.c:245-254 | every field of the table is written in order as a header line, and then an empty line |
| `NetDatas.NetData.GetEnt` | core/net_data.c:24-30 | the value of an entry with the key, if and only if there is one |
| `Chunked.ScanReads` | core/net_http.c:57-58 | what sscanf reads from a line taken apart into white space, sign, 0x, digits and the rest: the number that the digits write in base 16, or -1 kept when there are none; which numbers C leaves undefined |
| `Chunked.HexValueIs` | core/net_http.c:57-58 | the value computed for some digits is n if and only if they write n in base 16: the last digit is that of n mod 16, the others write n div 16 |
| `Chunked.HexDigitListed` | core/net_http.c:57-58 | the hexadecimal digits are the characters 0 to 9, a to f and A to F |
| `Chunked.WhiteListed` | core/net_http.c:57-58 | white space is the six characters that isspace accepts |
| `Chunked.NumeralRead` | core/net_http.c:57-58 | the hexadecimal numeral of n, with leading zeros and in either case, is read as n |
| `Chunked.ScanSplits` | core/net_http.c:57-58 | every line can be taken apart that way, so the previous row covers all lines |
| `Chunked.SizeOfLine` | core/net_http.c:57-58 | sscanf reads the number that is written in a well-formed chunk line, extension or not |
| `Chunked.ChunkForwarded` | core/net_http.c:43-69 | a well-formed chunk is forwarded as it is and what follows it is left |
| `Chunked.TrailersForwarded` | core/net_http.c:70-85 | so are the trailer lines and the empty line after them |
| `Chunked.BodyForwarded` | core/net_http.c:39-88 | so is a whole chunked body of section 4.1 of RFC 7230 with lines within the limits |
| `Chunked.BodyExact` | core/net_http.c:39-88 | for any input at all: a complete transfer writes exactly the bytes it consumes if and only if every line among them ended in CRLF |
| `Chunked.LoneLfRewritten` | core/net_http.c:39-88 | the other side is there: a body whose last chunk has a line ended by LF alone is transferred whole and is one byte longer |
| `Chunked.ChunkFlowMore` | core/net_http.c:39-88 | what a transfer writes and how it ends does not depend on what follows the body, unless it broke off |
| `Chunked.BodyCutShort` | core/net_http.c:39-88 | a body that is cut short anywhere makes the transfer fail |
| `Chunked.NoChunkLine` | core/net_http.c:44-48 | a chunk line that is missing, empty or too long ends the transfer |
| `Chunked.NoTrailerLine` | core/net_http.c:72-76 | so does a trailer line that is missing or too long |
| `Chunked.NoNumber` | core/net_http.c:57-69 | a chunk line without a number goes out with one byte after it |
| `Transfers.ReadLine` | core/net_http.c:44-45 | a line is read into the emptied buffer |
| `Transfers.SendLine` | core/net_http.c:51-52 | the line goes out with CRLF after it |
| `Transfers.ForwardChunk` | core/net_http.c:43-69 | one round of the chunk loop writes and consumes what the round on byte sequences does |
| `Transfers.ForwardTrailer` | core/net_http.c:72-84 | one round of the trailer loop, likewise |
| `Transfers.ForwardTrailers` | core/net_http.c:70-85 | the trailer loop writes its flow as far as the output has room, and succeeds exactly when the flow is complete and all of it was accepted |
| `Transfers.ForwardChunks` | core/net_http.c:39-88 | so does the whole chunked transfer |
| `Transfers.DecimalValueIs` | core/net_http.c:27-29 | the value computed for some digits is n if and only if they write n in base 10 |
| `Transfers.AtoiIs` | core/net_http.c:27-29 | atoi reads the number that is written at the beginning of the string, after white space and a sign, for every string |
| `Transfers.NumeralReadsAs` | core/net_http.c:27-29 | the decimal numeral of n, with leading zeros, white space and a sign before it and no digit after it, reads as n or -n |
| `Transfers.NoDigitsReadAs` | core/net_http.c:27-29 | a string without digits reads as 0 |
| `Transfers.ForwardSized` | core/net_http.c:25-37 | a body whose length is written as n is n bytes, copied with the code of conn_copy whatever room there is; one without a length is nothing |
| `Transfers.TransferBody` | core/net_http.c:17-88 | nothing for HEAD; chunks if the Transfer-Encoding found is chunked, whatever Content-Length is; otherwise as many bytes as the Content-Length found says in decimal; otherwise nothing |
| `Transfers.WholeBody` | core/net_http.c:39-88 | a well-formed chunked body that the output has room for arrives byte for byte and exactly the remainder stays unread, for any segmentation |
| `Transfers.ShortBody` | core/net_http.c:39-88 | one that the end of the stream cuts short fails |
| `Events.EventLoop.Post` | core/event.c:70-82 | the event joins the end of the queue |
| `Events.EventLoop.SetHandler` | core/event.c:57-68 | the handler of the event, function and data, is replaced or registered |
| `Events.EventLoop.FreeId` | core/event.c:48-55 | the handler of the event is gone |
| `Events.EventLoop.Pop` | core/event.c:98-100 | the event at the head leaves the queue |
| `Events.EventLoop.Round` | core/event.c:86-101 | one event is dispatched, and what its handler posts is in the queue |
| `Events.EventLoop.Work` | core/event.c:84-104 | the loop dispatches what the dispatch on sequences does and ends with head and tail null |
| `Events.Fifo` | core/event.c:70-104 | events are dispatched in the order of their posts, each exactly once, those posted by handlers included |
| `Events.DroppedIff` | core/event.c:90-96 | an event is dropped if and only if no handler is registered at the moment of its dispatch |
| `Events.LastDecides` | core/event.c:48-68 | the handler of an event is that of the last registration or removal that concerns it |
| `Pipeline.StructureStep` | core/net_handle.c:202-254 | every step keeps the queue contiguous and in order, and the response coroutine at its head or asleep |
| `Pipeline.WakeStep` | core/net_http.c:140-148 | every step keeps the wake-up invariant, from the moment the client is accepted on |
| `Pipeline.NoLostWakeUp` | core/net_handle.c:207-230 | in every run, whenever the response coroutine waits with a request in the queue, its event is queued and its handler registered |
| `Pipeline.WakesUp` | core/conn.c:166-186 | and in every continuation it has come to serve the head of the queue by the time the events up to its own are dispatched, whatever happens in between, resumption by a handler left over from an earlier wait included |
| `Ordering.OrderStep` | core/net_handle.c:215-254 | every step but a read out of turn keeps the responses in order and each server owing exactly the rest, whatever the status codes |
| `Ordering.ReadOutOfTurn` | core/net_handle.c:215-254 | a read from another connection than that of the first request without a final response breaks the order |
| `Ordering.OrderExact` | core/net_handle.c:215-254 | over every run: the responses are in the order of the requests if and only if each was read from the connection of the first request without a final response |
| `Ordering.OneConnection` | core/net_handle.c:215-254 | responses are in order in every run that forwards all requests on one connection, whatever interim responses there are |
| `Ordering.ResponsesInOrder` | core/net_handle.c:215-254 | in every run in which no interim response other than a 100 was taken for a final one, the responses are in order |
| `Ordering.EachOwnAnswer` | core/net_handle.c:235-253 | no interim response other than a 100 was taken for a final one if and only if as many entries left the queue as final responses went out, and then each left it with its own |
| `Ordering.UnansweredAreQueued` | core/net_handle.c:215-254 | in every state: for each server the requests without a final answer are its queue entries in order and at most one more not yet in the queue, if and only if no interim response other than a 100 was taken for a final one |
| `Ordering.SkippingOvertakes` | core/net_handle.c:235-253 | a run in which a 103 response makes the final response to the second request overtake that to the first |
| `Contexts.Context.StartReq` | core/net_handle.c:107-113 | the request coroutine posts its event and yields, and its handler is registered: two steps of the protocol |
| `Contexts.Context.StartRsp` | core/net_handle.c:207-212 | the same for the response coroutine, which is marked blocked |
| `Contexts.Context.AddRequest` | core/net_http.c:132-148 | the request joins the list and the response coroutine's event is posted exactly when it is blocked: the Enqueue step of the protocol |
| `Contexts.Context.Look` | core/net_handle.c:221-230 | the head of the list, or the coroutine is marked blocked and its handler registered again: as at the head of the loop in the protocol |
| `Contexts.Context.Answered` | core/net_handle.c:243-253 | the entry leaves the list unless the code is 100 |
| `Contexts.Context.NextEntry` | core/net_handle.c:216-254 | the end of a round and the head of the next are the Written step of the protocol |
| `Contexts.Context.DispatchShows` | core/event.c:86-101 | a round of event_work is the Dispatch step: a waiting coroutine is resumed exactly when the loop finds its handler for the event |
| `ConnPools.Push` | core/conn.c:94-98 | a new entry is linked right after the head of a list |
| `ConnPools.Unlink` | core/conn.c:107-110 | an entry is taken out of the middle of a list |
| `ConnPools.Pool.Add` | core/conn.c:74-99 | the connection is on top of the stack of its endpoint, the other stacks are as they were |
| `ConnPools.Pool.Del` | core/conn.c:101-113 | a connection leaves its stack from the middle, the others keep their order; its apool is left as it is |
| `ConnPools.Pool.TryGet` | core/conn.c:115-131 | the connection added last to the endpoint's stack leaves it, or null if and only if there is none |
| `ConnPools.Pool.ExactlyOnce` | core/conn.c:21-32 | every pooled connection sits at exactly one place, in the list of its own endpoint |

## Left out

- HashTable.HashTable.Add: counters are unbounded; the wrap-around of `unsigned` after 2^32 items is not modelled, nor is a failing malloc. The key is an abstract value, so key length and memcmp are one equality.
- HashTable.HashTable.Find: which of several entries with an equal key is found depends on the expansions since they were added; the contract names the first of the chain.
- ListSort.SortList: the comparison function sees the identity of nodes only, not links that are being changed.
- Kmp.Find: start positions before the first byte are outside its precondition, since the source reads before the buffer there.
- Kmp.FindR: start positions after the last byte are outside its precondition, for the same reason; and lengths are such that `long` arithmetic does not overflow.
- Kmp.FindFromR: for needles of 2^32 bytes or more that differ from the first alignment in a character that is compared, the result is left open; `Kmp.ExactIffR` needs only the other long needles.
- Conns.Conn.GetC: the `rx` counter is not modelled; conn_getc and conn_copy count differently. An error of recv and the end of the stream are the same, as they are to the callers. A line with a byte 0xFF fails, because that byte reads as -1.
- Conns.Copy: a negative length is not modelled; the callers here pass none. How much of the input is left when the output fails depends on the sizes of the pieces that arrived, so it is bounded from both sides and not determined.
- Headers.FetchFrom: a key of 32 bytes or more ends the fetching with a status of its own, since strncpy then leaves it without a NUL and strlen reads past it.
- Chunked.ScanReads: sizes that `sscanf` leaves undefined in C (negative, or above 2^31 - 3) end the transfer with a code of its own. After `0x` without digits nothing matches, as the C standard has it; libraries that read the 0 alone are not modelled.
- Transfers.TransferBody: the same code stands for a Content-Length outside `int`. With several fields of one key, which of them is found is left open.
- Events.EventLoop.Work: handlers are finite lists of posts, registrations and removals; a handler that runs event_work again is not modelled. The wrap-around of event ids and the memory of freed events are not modelled.
- Ordering.OrderExact: runs without closing connections, failing forwards, shutdown or CONNECT; messages are whole, since one coroutine alone writes them and Transfers.WholeBody says where they end.
- Pipeline.WakesUp: progress is shown for the event loop only; that servers answer is not assumed.
- ConnPools.Pool.Add: the connection must not be in the pool already, which the source does not test. Reference counts are counted and nothing is freed.
- Sockets, epoll, name lookup, ucontext switching, timers, logging and signals: parameters or step boundaries.
- net_parse_req, net_parse_rsp and the rewriting of URI and Host: regular expressions other than that of header lines.
- net_connect_to_server beyond the pool: name lookup and connecting.
- The response branch for HTTP/1.0, HEAD responses (the response data never says HEAD, so their bodies would be waited for), and CONNECT.
- net_data_set_ent, whose loop never advances, and net_data_del_ent.
- HASH_SELECT, the Bloom filter, HASH_REPLACE, and the hash functions themselves: not needed once hashing is uninterpreted.
- utarray.h, the other list macros of utlist.h, and csapp.c.
