# Remote package installer: verified models of its parsing, networking and container code

This project models the parts of the remote package installer that hold real logic, and proves what they are for:

- the in-place JSON parser (`RPI/tiny-json.c`): its loop, its pool of nodes and its overwritten text buffer;
- the HTTP stream engine (`RPI/sandbird.c`, with the body slice of `RPI/server.c`): request framing, the response
  state machine, partial sends and file streaming, the growing buffer, and the stream list shared between threads;
- package fetching and reading (`RPI/http.c`, `RPI/pkg.c`, `RPI/sfo.c`);
- query encoding and decoding (`RPI/util.c`, `RPI/sandbird.c`);
- the vendored algorithm headers: KMP search (`RPI/utstring.h`), list mergesort (`RPI/utlist.h`), the hash table (`RPI/uthash.h`).

`dafny verify dfyconfig.toml` checks all of it.

## How the model is built

Code that changes memory is a method or a class with methods: the JSON pool is an array of nodes and the text an
array of characters, pointers into them are indices and the null pointer is -1; list elements, hash items, buffers and
streams are objects with the source's fields. Each method is proved against a specification on values (a recursive
grammar, a merge of sequences, a map, a byte sequence), and the lemmas then say what that specification is worth.

Calls into code outside the repository are nondeterministic: memory may be refused, `recv` and the SDK's read may
deliver any pieces, `send` may take any part, a server may answer in any of the ways described in `Download`.
`toUint` is the C library's reading of a number in a header, `hash` an arbitrary hash function and `cmp` an arbitrary
comparison. The threads of the server are a state machine with one step per C statement (`SbList`).

Tables of the source, such as escapes, hex digits, letters left unencoded or the byte order, are compared with tables
of numbers (`Ascii`, `Bytes`) that are written without reference to the code.

A loop of the source that does not end is an outcome of its own: the search for a header field reports that it hangs,
and the receive loop then ends with `Hung`.

The files, by what they depend on: `CStrings`, `Ascii`, `Seqs`, `Bytes`; `JsonGrammar`, `JsonStack`, `JsonTree`, `JsonNumber`,
`JsonScan`, `JsonParser`, `JsonRfc`, `JsonSound`, `JsonExact`, `JsonLookup`; `Kmp`; `MergeSpec`, `DList`, `ListSort`; `HashBits`,
`HashBuckets`, `HashTable`, `UtHash`; `SbBuffer`, `SbRequest`, `SbReceiver`, `SbSender`, `SbList`, `SbLinks`, `SbSteps`,
`SbRuns`, `SbProgress`; `Sfo`, `Download`, `PkgSetup`, `PkgImage`; `Query`.

## What the code does not do

Where a property one would expect does not hold of the code, the model keeps the code, shows an input at which the
property fails and states exactly when it holds.

- An integer literal is accepted exactly in the signed 64-bit range as long as its length fits 32 bits; the length is
  kept in an `unsigned int`, so a literal of 2^32 + 1 digits is compared as if it were short (`IntegerRangeExact`,
  `IntegerRangeFails`).
- A `\u` escape is read as '?', whatever it denotes: a string is decoded to the characters section 7 of RFC 8259 gives it
  exactly if each of its `\u` escapes denotes '?' (`DecodesExactly`, `EscapeExample`). Where the table below speaks of
  the meaning of a text, its `\u` escapes mean '?'.
- `find_header_value` never returns exactly if the text has a carriage return without a line feed, and before the first
  such one no blank line and no line with the field (`LoopsExactly`, `HangsExactly`, `EndsWithoutBareCr`, `BareCrLoops`).
- `url_decode` reports a value that just fits, terminator included, as truncated: success means that at least one more
  character would have fitted (`UrlDecode`, `JustFits`, `JustFitsExample`).
- A first piece whose length the server does not report is written to the piece table with size 2^64 - 1, and the
  offsets after it wrap around; the table tiles the package exactly when the sizes do not wrap (`TilesExactly`). The
  set-up then succeeds if the wrapped end is the package size, and the table tiles exactly if the other files are empty
  (`UncountedTilesExactly`, `UnknownSizeRun`, `UnknownSizeExample`).
- A download from an offset of 2 or more with no size given asks for a range that ends before it starts, so it never
  succeeds; a download can succeed exactly if the range asked for does not wrap and begins in the file
  (`SucceedsExactly`, `NoSizeFails`, `NoSizeExample`).
- `utstring_find` casts lengths to `int`: occurrences that end behind the cast length of the haystack are not seen, and
  of needles of 2^31 characters or more only a part is compared, if any (`MissedOccurrence`, `WrongOccurrence`). On all
  texts of one length the search from the left is right exactly if the needle does not fit or the text is shorter than
  2^31, the search from the right exactly if the needle does not fit or is shorter than 2^31 (`LeftExactly`, `RightExactly`).
- `sfo_load_from_memory` does not check key and value offsets against the data; it reads past the data exactly if,
  behind rows that are in order, a row with fitting sizes has a key without a NUL behind it or a value that ends
  outside (`StraysExactly`, `LoadFromMemory`, `StrayExample`).

`RPI/sfo.c` reads the 32-bit value offset of an entry through `LE16`. The macro is the identity, so nothing is cut
off, and the round trip is proved for offsets beyond 16 bits.

## Model

| member | source | states |
|---|---|---|
| JsonParser.JsonCreate | RPI/tiny-json.c:69-80 | Succeeds exactly if the recursive grammar reads a document and the pool has a slot for every value in it; the pool then stores that document's tree, every name and text NUL-terminated in the buffer. |
| JsonParser.ObjValue | RPI/tiny-json.c:316-371 | The one loop ends with the root stored exactly if the grammar parses the text and the slots suffice, and otherwise with null. |
| JsonParser.TakeTurn | RPI/tiny-json.c:321-369 | One turn keeps: unread text is the original input, the pool stores all open containers, and reading on from here gives the same document as reading from the start. |
| JsonParser.CloseContainer | RPI/tiny-json.c:329-337 | At a closing bracket the finished container becomes a member of its parent, or the root is complete; all text stored before stays readable. |
| JsonParser.ReadMember | RPI/tiny-json.c:338-368 | A member is read exactly if a slot is free and the grammar reads its name and value, or opens a nested container. |
| JsonParser.ReadValue | RPI/tiny-json.c:348-367 | A scalar is stored as the grammar's value, or the member becomes the innermost open container. |
| JsonParser.Add | RPI/tiny-json.c:300-309 | Linking a property is the pool update AddChild and touches nothing else. |
| JsonParser.PropertyName | RPI/tiny-json.c:148-156 | Reads a name, colon and blanks exactly as the grammar does, and leaves the decoded name NUL-terminated. |
| JsonParser.ReadScalar | RPI/tiny-json.c:362-366 | Accepts exactly the scalars of the grammar and stores type and decoded text, without touching text stored before. |
| JsonParser.JsonPool.New | RPI/tiny-json.c:376-388 | Hands out the slots in order, and null exactly when all are used. |
| JsonStack.CloseStep | RPI/tiny-json.c:329-337 | Reading on with an explicit stack of open containers: a closing bracket finishes the innermost one and changes nothing about the result. |
| JsonStack.MemberStep | RPI/tiny-json.c:338-368 | Reading a whole member and going on gives what the recursive grammar gives, and fails when it fails. |
| JsonStack.OpenStep | RPI/tiny-json.c:350-361 | Pushing a nested container on the stack gives what the recursive grammar gives for it. |
| JsonStack.DocumentStart | RPI/tiny-json.c:69-80 | The loop starts with what the whole document reads as. |
| JsonStack.ResumeSize | RPI/tiny-json.c:385-388 | A document needs at least the slots already in use, so running out of slots means the document does not fit. |
| JsonTree.AddKeepsStack | RPI/tiny-json.c:300-309 | Linking in a slot keeps the whole stack of open containers stored, with last_child pointing to the new slot. |
| JsonTree.FillSlot | RPI/tiny-json.c:346-368 | Once the linked slot stores a member, the innermost container stores its members followed by it. |
| JsonTree.CloseKeepsStack | RPI/tiny-json.c:331-335 | Clearing the sibling pointer of a closed container makes it a stored member of its parent. |
| JsonTree.OpenKeepsStack | RPI/tiny-json.c:350-361 | Pointing the sibling field of a new container to its parent makes it the innermost open one. |
| JsonTree.StackStable | RPI/tiny-json.c:117-141 | Writes behind what is stored, in the pool or in the text, leave everything stored as it was. |
| JsonLookup.OpenChain | RPI/tiny-json.c:331-335 | While parsing, the sibling pointers from the innermost container visit exactly the open containers, out to the root. |
| JsonLookup.SiblingChain | RPI/tiny-json.c:42-48 | In the finished tree the sibling pointers visit the members in order, each stored whole. |
| JsonLookup.GetProperty | RPI/tiny-json.c:42-48 | Returns the node of the first member with the name, or null if no member has it. |
| JsonScan.ParseString | RPI/tiny-json.c:117-141 | Decodes the string in place exactly as the grammar does; the write position never passes the read position and unread text is untouched. |
| JsonScan.DecodeChar | RPI/tiny-json.c:125-138 | One character or escape is written where the previous ones end, as the grammar decodes it, or is refused. |
| JsonScan.GetCharFromUnicode | RPI/tiny-json.c:104-110 | Four hex digits give '?', anything else a refusal. |
| JsonScan.PrimitiveValue | RPI/tiny-json.c:191-197 | Accepts the word exactly when something that ends a primitive follows, and leaves it NUL-terminated. |
| JsonScan.CheckStr | RPI/tiny-json.c:176-181 | Matches exactly the word. |
| JsonScan.SetToNull | RPI/tiny-json.c:440-443 | Ends a primitive with a NUL unless a bracket stands there, which the loop still has to see. |
| JsonScan.GoBlank | RPI/tiny-json.c:405-421 | Stops at the first character that is not a blank, or gives null at the end of the text. |
| JsonScan.GoNum | RPI/tiny-json.c:426-432 | Stops at the first character that is not a digit, or gives null at the end of the text. |
| JsonScan.NumEnd | RPI/tiny-json.c:258-276 | Finds where the grammar says the number ends, and whether it is real. |
| JsonScan.ExpValue | RPI/tiny-json.c:233-238 | Reads an exponent exactly as the grammar does. |
| JsonScan.FraqValue | RPI/tiny-json.c:244-249 | Reads a fraction exactly as the grammar does. |
| JsonScan.IntegerCheck | RPI/tiny-json.c:277-292 | Compares length and digits with the limits as the grammar's test does, including the 32-bit length. |
| JsonScan.NumValue | RPI/tiny-json.c:257-295 | Accepts exactly the numbers of the grammar and leaves the lexeme NUL-terminated. |
| JsonNumber.IntegerRange | RPI/tiny-json.c:277-292 | The test by length and lexicographic order accepts an integer literal shorter than 2^32 exactly if its value is a signed 64-bit integer. |
| JsonNumber.IntegerRangeExact | RPI/tiny-json.c:277-292 | For literals of any length: exactly when the test agrees with the range, in terms of the length modulo 2^32. |
| JsonNumber.IntegerRangeFails | RPI/tiny-json.c:283-285 | A literal out of range that is accepted because its length wraps. |
| JsonNumber.LexIsNumeric | RPI/tiny-json.c:285-291 | Digit strings of equal length compare lexicographically as their values do. |
| JsonNumber.NumberReads | RPI/tiny-json.c:257-295 | Every numeral of section 6 of RFC 8259 is read whole, as a real or as an integer if it passes the range test. |
| JsonNumber.NumberSound | RPI/tiny-json.c:257-295 | Only numerals of section 6 of RFC 8259 are read. |
| JsonRfc.Rfc8259Text | RPI/tiny-json.c:69-80 | Every object text of RFC 8259, of any length, with any white space and escapes, is read as its meaning, \u escapes as '?', unless it has an integer that fails the overflow test, and then it is refused. |
| JsonRfc.Rfc8259Range | RPI/tiny-json.c:69-80 | The same for texts shorter than 2^32 in terms of values: it is read as its meaning exactly if every integer in it is a signed 64-bit integer. |
| JsonRfc.ValueRead | RPI/tiny-json.c:348-367 | The same for every value in a text, by induction on its syntax. |
| JsonRfc.TextRead | RPI/tiny-json.c:117-141 | Every string of section 7 of RFC 8259 is decoded, each \u escape to '?'. |
| JsonRfc.DecodesExactly | RPI/tiny-json.c:104-138 | The decoded characters are those RFC 8259 gives the string exactly if each of its \u escapes denotes '?'. |
| JsonRfc.EscapeExample | RPI/tiny-json.c:104-110 | The escape for 'A' is read as '?'. |
| JsonRfc.EscapeTable | RPI/tiny-json.c:87-100 | The eight letters stand for the codes section 7 of RFC 8259 gives them, by number, and no other letter is an escape. |
| JsonRfc.StringRoundTrip | RPI/tiny-json.c:117-141 | A string is printed with its quotes, backslashes and control characters escaped by their codes, and is read back as it was. |
| Ascii.DigitCodes | RPI/tiny-json.c:104-110 | isdigit and isxdigit hold of exactly the codes of the digits and of the letters a to f in both cases. |
| JsonSound.DocumentSound | RPI/tiny-json.c:69-80 | Nothing else is read: every text accepted is the print of a syntax with runs of blanks and commas for separators, and what is read is its meaning. |
| JsonSound.ValueSound | RPI/tiny-json.c:348-367 | The same for every value, by induction on what the grammar reads. |
| JsonSound.TailSound | RPI/tiny-json.c:117-141 | Every string that is accepted is the print of its characters and escapes. |
| JsonExact.DocumentExactly | RPI/tiny-json.c:69-80 | A text is read as a value up to n exactly if up to n it is blanks and the print of an object of that syntax, in which a word or number is kept apart from what follows, and the value is its meaning. |
| JsonExact.LooseRead | RPI/tiny-json.c:348-367 | Every value of that syntax is read whole as its meaning, by induction on it. |
| Kmp.BuildTable | RPI/utstring.h:162-198 | Every entry is the strong failure function: the longest border whose next character differs, or -1 if there is none. |
| Kmp.FallBack | RPI/utstring.h:174-177 | Following a table entry skips no border that could still be extended. |
| Kmp.Entry | RPI/utstring.h:180-194 | What is written next to the table is its failure value. |
| Kmp.Shift | RPI/utstring.h:256-259 | Shifting the needle by the table skips no occurrence. |
| Kmp.FindIn | RPI/utstring.h:242-271 | Returns the first occurrence, or -1 if none ends within the length as an int; the early cut-off loses none. For a needle of 2^31 characters or more: exactly what is returned, by the part of it that is compared. |
| Kmp.CIntExactly | RPI/utstring.h:256 | What the cast to `int` gives: the one signed 32-bit number that differs by a multiple of 2^32. |
| Kmp.FirstOfShort | RPI/utstring.h:242-271 | For a needle shorter than 2^31: the first occurrence if it ends within the length as an int, and otherwise -1. |
| Kmp.MissedOccurrence | RPI/utstring.h:256 | An occurrence at the end of 2^31 characters is not reported. |
| Kmp.BuildTableR | RPI/utstring.h:202-238 | The right-to-left table is the exact mirror of the left-to-right table of the reversed needle. |
| Kmp.FindInR | RPI/utstring.h:275-305 | For every needle and text: the last occurrence of a needle shorter than 2^31, or -1 if there is none; for a longer one the first alignment from the right, in the steps of the whole needle's table, at which as many characters agree as its length is as an int, or -1. |
| Kmp.WrongOccurrence | RPI/utstring.h:290 | A needle of 2^31 characters is reported where it does not occur. |
| Kmp.LeftExactly | RPI/utstring.h:242-271 | On all texts of length m the search from the left gives the first occurrence, or -1 if there is none, exactly if the needle is longer than m or m is less than 2^31. |
| Kmp.RightExactly | RPI/utstring.h:275-305 | On all texts of length m the search from the right gives the last occurrence, or -1 if there is none, exactly if the needle is longer than m or shorter than 2^31. |
| Kmp.LastByFirst | RPI/utstring.h:275-305 | An occurrence in the mirrored texts that is first is, mirrored back, last. |
| Kmp.UTString.Find | RPI/utstring.h:309-351 | The smallest occurrence at or after the start, which may count from the end, or -1 exactly if none ends within the length from the start as an int; what FindIn says of longer needles. |
| Kmp.UTString.FindR | RPI/utstring.h:355-393 | The largest occurrence that ends at or before the start position, or -1 if there is none; what FindInR says of longer needles. |
| MergeSpec.MergeSorts | RPI/utlist.h:201-214 | Merging two sorted runs gives a sorted run. |
| MergeSpec.MergeIsStable | RPI/utlist.h:201-214 | Among equal elements, those of the first run come first, each run's in order. |
| MergeSpec.ClassHas | RPI/utlist.h:201-214 | What the classes are that keep their order: the elements of which neither compares greater than the other. |
| MergeSpec.PassDoublesRuns | RPI/utlist.h:187-230 | A pass over sorted runs of length k leaves sorted runs of length 2k. |
| MergeSpec.PassIsStable | RPI/utlist.h:187-230 | A pass keeps the order among equal elements. |
| MergeSpec.SortIsStableSort | RPI/utlist.h:175-233 | The passes end with a sorted permutation in which equal elements keep their order, for any total preorder. |
| DList.Append | RPI/utlist.h:639-651 | The new element comes last, next and prev stay consistent, and the head's prev is the tail. |
| DList.Delete | RPI/utlist.h:706-723 | Exactly that element leaves the list, next and prev stay consistent, and the head's prev is the tail. |
| ListSort.DLSort | RPI/utlist.h:175-233 | Sorts the list in place: sorted, a permutation, stable, with consistent links; the loop ends because the run length doubles. |
| ListSort.OnePass | RPI/utlist.h:187-226 | One pass over the linked elements is the pass on sequences, and counts its merges. |
| ListSort.MergeRuns | RPI/utlist.h:201-222 | Merging two runs by relinking is the merge of their sequences. |
| ListSort.CountRun | RPI/utlist.h:193-199 | Counts off the first run, shorter at the end of the list. |
| HashBits.ShiftAndMask | RPI/uthash.h:430-433 | Mask and shift by a power of two are remainder and quotient, so the bucket index is in range. |
| HashBits.IdealIsCeiling | RPI/uthash.h:923-925 | The shift-and-mask expression is the item count over the new bucket count, rounded up, and not zero when there are items. |
| HashBuckets.AddToBkt | RPI/uthash.h:849-858 | The item becomes the first of the bucket's chain, and the count grows by one. |
| HashBuckets.DelInBkt | RPI/uthash.h:871-883 | Exactly that item leaves the bucket's chain. |
| HashBuckets.FindInBkt | RPI/uthash.h:827-846 | The first item of the chain with the hash value and key, or null if there is none. |
| HashTable.Redistribute | RPI/uthash.h:926-948 | Every item ends in the new bucket its hash value selects, chains and counts are exact and no item is lost. |
| UtHash.Hash.ExpandBuckets | RPI/uthash.h:915-963 | Doubling keeps every item, sets the ideal length, the non-ideal count, every bucket's multiplier and the expansion inhibition as the comment says. |
| UtHash.Hash.Find | RPI/uthash.h:156-174 | The item the map has for the key, or null if it has none. |
| UtHash.Hash.Add | RPI/uthash.h:396-415 | The map gains the key, the item is appended in application order, the table invariant of HASH_FSCK holds, and the buckets are doubled exactly if the item makes ten times one more than the multiplier in its bucket and expansion is not inhibited. |
| UtHash.Hash.Delete | RPI/uthash.h:450-477 | The map loses the key, the application order loses the item, and the table invariant of HASH_FSCK holds. |
| UtHash.Hash.Perform | RPI/uthash.h:396-477 | Over any run of lookups followed by additions or deletions, through expansions and emptied tables: the table stands for the map and the application order the run makes, and the table invariant of HASH_FSCK holds. |
| UtHash.Hash.RemoveFromTable | RPI/uthash.h:473-475 | The item leaves its bucket and the item count, every other chain stays. |
| UtHash.AppendList | RPI/uthash.h:278-284 | The application-order list ends with the new item and the tail points to it. |
| UtHash.UnlinkApp | RPI/uthash.h:460-472 | The application-order list, its head and its tail lose exactly that item. |
| UtHash.MapOfSpec | RPI/uthash.h:515-562 | With distinct keys, the items in application order are the map's entries. |
| SbBuffer.Buffer.PushChar | RPI/sandbird.c:210-217 | Appends a character or leaves the contents unchanged. |
| SbBuffer.Buffer.PushStr | RPI/sandbird.c:220-232 | Appends all or nothing; from empty, all reallocations together copy fewer than 2n bytes for n pushed. |
| SbBuffer.Buffer.Reserve | RPI/sandbird.c:199-207 | Keeps the contents, never shrinks. |
| SbBuffer.Buffer.Shift | RPI/sandbird.c:193-196 | Drops exactly the first n bytes. |
| SbBuffer.Buffer.NullTerminate | RPI/sandbird.c:342-347 | Contents unchanged, with a NUL behind them. |
| SbBuffer.GrownGap | RPI/sandbird.c:210-217 | A capacity grown by pushes is zero or a power of two, so a grown buffer is more than half full right after growing. |
| SbRequest.LoopsExactly | RPI/sandbird.c:136-147 | For every text: the header search never returns exactly if there is a bare carriage return, and before the first one no NUL, no blank line and no line with the field. |
| SbRequest.FoundExactly | RPI/sandbird.c:136-147 | What the search finds is the value in the one line that begins with the field and a colon and has no NUL, bare carriage return, blank line or earlier such line before it, and it finds it exactly if there is one. |
| SbRequest.HangsExactly | RPI/sandbird.c:484-488 | The receive loop hangs exactly on streams whose header block is complete and has such a carriage return. |
| SbRequest.EndsWithoutBareCr | RPI/sandbird.c:136-147 | On a text without a bare carriage return the search returns. |
| SbRequest.BareCrLoops | RPI/sandbird.c:136-147 | A header block of seven bytes the search does not get out of. |
| SbRequest.FrameStable | RPI/sandbird.c:450-534 | What a prefix of the stream already amounts to, the stream amounts to, whatever follows. |
| SbReceiver.TwoRuns | RPI/sandbird.c:450-534 | Two runs of the receive loop over the same bytes, cut into pieces in any two ways, end the same way with the same request and body index, unless an allocation fails in one of them. |
| SbRequest.RequestShape | RPI/sandbird.c:478-502 | A request is the bytes through the first CRLF CRLF; if they have a Content-Length line, then exactly as many bytes more as it says, and if they have none, no more. |
| SbRequest.CaseEqualExactly | RPI/sandbird.c:126-133 | A header name matches exactly if it differs from the field at most by the case of letters, told by their codes. |
| SbRequest.CaseDoesNotMatter | RPI/sandbird.c:450-534 | Two streams that differ only in the case of letters before the value of the Content-Length line are framed alike: with as many bytes and the body at the same place. |
| SbRequest.LowerCaseExample | RPI/sandbird.c:126-147 | A request with the line `content-length: 2` has its two bytes of body. |
| SbReceiver.FindHeaderValue | RPI/sandbird.c:136-147 | The index of the value in the line with the field, and null if there is no such line; and whether the loop never ends; for every text. |
| SbReceiver.Receiver.Recv | RPI/sandbird.c:450-534 | Over any chunks: the request handed on is the one the whole stream frames, or the stream is incomplete, or the search for the header field hangs on it; it fails exactly if an allocation was refused, and is closed then and on a disconnect. |
| SbReceiver.Receiver.ReceiveByte | RPI/sandbird.c:470-508 | One byte keeps the stream's fields in step with what the bytes so far amount to, or completes the request, or completes a header block the search hangs on. |
| SbReceiver.Receiver.HeaderReceived | RPI/sandbird.c:484-498 | At the end of the header block the expected length is set from Content-Length, or the request is complete, or the search hangs. |
| SbReceiver.Receiver.BodySlice | RPI/server.c:1090-1095 | The slice given to a POST handler is exactly the body bytes, and null if there are none. |
| SbSender.Sender.SendStatus | RPI/sandbird.c:591-600 | Queues one status line, and only in its state; a failure changes nothing. |
| SbSender.Sender.SendHeader | RPI/sandbird.c:603-615 | Queues one header line after a status line, never after the blank line; the state does not go back. |
| SbSender.Sender.FinalizeHeader | RPI/sandbird.c:578-588 | Queues the one blank line after a status line, and no headers are lost. |
| SbSender.Sender.SendFile | RPI/sandbird.c:618-649 | Queues Content-Length and the blank line and takes the file over, or fails without a file; the state does not go back. |
| SbSender.Sender.Write | RPI/sandbird.c:652-659 | Appends the data to the body, all or nothing, and only where a body may be. |
| SbSender.ExtendsAppends | RPI/sandbird.c:578-659 | A response that is extended by calls is extended in its bytes: what was queued before is a prefix. |
| SbSender.ResponseBytes | RPI/sandbird.c:578-659 | A complete response is the status line, the header lines, an empty line, and the body or the file. |
| SbSender.HeaderReadsBack | RPI/sandbird.c:603-615 | A header line that is sent is found again by its field, with exactly the value that was sent. |
| SbSender.DefaultLine | RPI/sandbird.c:578-600 | The status line sent by default is version, code 200 and OK. |
| SbSender.Sender.Perform | RPI/sandbird.c:578-659 | Over any sequence of calls, failing ones included, the state never goes back and the queued output only grows, always as a prefix of a well-formed response. |
| SbSender.Sender.Send | RPI/sandbird.c:537-575 | Wire, buffer and unread file stay the whole response; the socket is asked exactly if there is something to send; a close means that all is sent or the connection is lost; otherwise the measure falls. |
| SbSender.Sender.SendData | RPI/sandbird.c:541-556 | What the socket takes moves from the front of the buffer to the wire, no more and no less; the connection counts as lost only if it takes nothing. |
| SbSender.Sender.ReadFile | RPI/sandbird.c:562-567 | The bytes read move from the file to the buffer, and none only at its end. |
| SbSender.Sender.SendAll | RPI/sandbird.c:958-961 | On a blocking socket the loop ends, and without an error or a lost connection the whole response is on the wire. |
| SbRuns.NextKeeps | RPI/sandbird.c:391-447 | Every step of every actor keeps the invariant: who holds the mutex, how far the list is bent, who owns which stream, what was destroyed. |
| SbRuns.ListIsSound | RPI/sandbird.c:391-426 | In every interleaving, whenever the mutex is free the list is well-formed, without duplicates, and holds exactly the streams linked and not yet unlinked. |
| SbRuns.DestroyedOnce | RPI/sandbird.c:963-1018 | In every interleaving, a stream is destroyed exactly once when its owner is done with it, when thread creation fails too, and it is out of the list by then. |
| SbRuns.ServedBeforeDestroyed | RPI/sandbird.c:943-1018 | In every interleaving, a stream is destroyed only after its thread has been serving it, or after the accept loop had to take it back. |
| SbProgress.SomebodyCanStep | RPI/sandbird.c:943-1025 | In every reachable state in which somebody owns a stream, the holder of the mutex, or with the mutex free any owner, can make a step: the server does not deadlock. |
| SbProgress.WorkFalls | RPI/sandbird.c:943-1025 | Every step but accepting a connection brings a measure of the whole server down, walking the list too. |
| SbProgress.WorkIsBounded | RPI/sandbird.c:943-1025 | From every reachable state only as many steps as the measure says are possible without accepting another connection. |
| SbProgress.QuietMeansDone | RPI/sandbird.c:943-1025 | In every interleaving that cannot go on without a new connection, every accepted stream has been destroyed, once, and is out of the list. |
| SbRuns.NothingFreedIsTouched | RPI/sandbird.c:391-447 | In every interleaving, no step reads or writes the links of a destroyed stream. |
| SbRuns.OneInside | RPI/sandbird.c:396-424 | In every interleaving, at most one actor is between lock and unlock. |
| SbLinks.AppendLast | RPI/sandbird.c:397-403 | Linking behind the stream whose next is null leaves a well-formed list but for the new stream's prev. |
| SbLinks.NextBypassed | RPI/sandbird.c:416-418 | The first write of unlinking is to an allocated stream and bends only its prev. |
| SbLinks.PrevBypassed | RPI/sandbird.c:419-421 | The second write of unlinking is to an allocated stream and bends only its next. |
| SbLinks.Unlinked | RPI/sandbird.c:422-424 | After the last write the list is well-formed again, without exactly that stream. |
| SbSteps.StepKeepsOther | RPI/sandbird.c:391-447 | A step of one actor leaves every other actor what it relies on, in the middle of its own critical section too. |
| SbRuns.AcceptKeeps | RPI/sandbird.c:984-990 | Accepting a connection keeps the invariant. |
| SbRuns.CreateKeeps | RPI/sandbird.c:1000-1004 | Handing the stream to its thread keeps the invariant. |
| SbRuns.CreateFailKeeps | RPI/sandbird.c:1000-1018 | Failing to create the thread keeps the invariant, and the accept loop keeps the stream. |
| Download.HttpDownloadFile | RPI/http.c:368-440 | Says exactly which answers lead to success; then the bytes are the file's from the offset on, no more than asked for, and all there are unless the connection ended early. |
| Download.SucceedsExactly | RPI/http.c:368-440 | Some answer a server may give makes the download succeed exactly if the range asked for does not wrap and begins in the file. |
| Download.NoSizeFails | RPI/http.c:368-440 | With no size and an offset of 2 or more no answer makes it succeed. |
| Download.NoSizeExample | RPI/http.c:368-440 | The end of a file of three bytes cannot be downloaded without a size. |
| Download.DownloadFileCb | RPI/http.c:516-604 | Succeeds exactly on acceptable answers when memory and reads hold, and otherwise returns the code of what failed; what is stored is the front of the body, followed by a NUL; a 200 answer to a range request is refused. |
| Download.ReadBody | RPI/http.c:576-593 | The loop collects the body's bytes in order, whatever sizes the reads have, up to the wanted total. |
| Download.AnswerIsFaithful | RPI/http.c:398-405 | An accepted answer's body is the file from the offset on, for every answer a server may give. |
| Download.HttpGetFileSize | RPI/http.c:326-366 | Success gives the length of the file. |
| PkgSetup.SetupPrerequisites | RPI/pkg.c:299-478 | Success means: magic, entry table, param.sfo and icon are the package's own bytes at the declared places, and the piece table has the running sums of the sizes, ending at the package size. If in every exchange the server answers as asked and nothing fails or ends early, it succeeds exactly on files that meet the format; if the first exchange gives no length, exactly on those that meet it with 2^64 - 1 as the first length, which the first row then has. |
| PkgSetup.FindEntries | RPI/pkg.c:346-361 | The places of the last entries with the two ids, or 0 and 0 where there is none. |
| PkgSetup.Fetch | RPI/pkg.c:299-309 | A download of the wrong length is refused, so what is accepted is exactly the declared bytes; if the server reports a length and honours a range, and nothing fails or ends early, it is accepted exactly if the bytes lie in the file. |
| PkgSetup.FetchEntries | RPI/pkg.c:346-404 | param.sfo and icon are the bytes at the last entries' places; accepted exactly if they lie in the file and param.sfo has its magic. |
| PkgSetup.WritePieces | RPI/pkg.c:422-441 | Each offset is the sum, in 64 bits, of the sizes before it; each size but the first is the file's length. |
| PkgSetup.TilesExactly | RPI/pkg.c:422-448 | With the final check passed, the pieces lie end to end over [0, package size) exactly if the sizes do not wrap around. |
| PkgSetup.UnknownSizeDoesNotTile | RPI/pkg.c:300 | For any package whose header gives one byte less than the second file has: a table with the size 2^64 - 1 in the first row passes every check and does not tile. |
| PkgSetup.UnknownSizeRun | RPI/pkg.c:299-478 | For any such package: if the first exchange gives no length, the others do, and nothing fails, the set-up succeeds with a table that does not tile. |
| PkgSetup.UncountedTilesExactly | RPI/pkg.c:422-448 | With no length for the first file the table of a successful set-up tiles exactly if the other files are empty. |
| PkgSetup.UnknownSizeExample | RPI/pkg.c:300 | Such a package, byte for byte. |
| PkgSetup.TiledOnce | RPI/pkg.c:422-448 | In a tiling every byte of the package lies in exactly one piece. |
| PkgSetup.PieceHoldsByte | RPI/pkg.c:422-448 | With the first length known, every byte of the joined files is in the file, and at the place, that the one row covering it gives. |
| PkgSetup.PackageTiles | RPI/pkg.c:445-448 | The same exact condition for the outcome of the whole set-up. |
| PkgImage.SetupPackage | RPI/pkg.c:299-478 | For a package laid out byte for byte with any rows, numbers and places: the set-up takes exactly its content type, its size and the bytes at the places of the last rows with the two ids; and when nothing fails it succeeds exactly if those lie in the file, param.sfo has its magic, and the size is that of the files. |
| PkgImage.InstallableExactly | RPI/pkg.c:299-478 | Which packages can be installed, told by what they hold and not by how it is read. |
| PkgImage.RowReads | RPI/pkg.c:346-361 | A row of the entry table is read as the id, offset and size that were written. |
| Bytes.BE32IsBigEndian | RPI/common.h:42-68 | Four bytes are read as the number whose digits to the base 256 they are, the first the most significant. |
| Bytes.BE64IsBigEndian | RPI/common.h:42-68 | And so are eight bytes. |
| Sfo.LoadFromMemory | RPI/sfo.c:133-223 | The list holds exactly the table's entries in table order with values zero-padded to their area. With memory, it strays or refuses exactly on the data that make it, the first bad row deciding; without, the row at which memory ran out is named and all before it are good. |
| Sfo.StraysExactly | RPI/sfo.c:158-202 | Loading reads past the data exactly if, behind rows that are in order, one with fitting sizes has no NUL behind its key offset in the data, or its value ends behind the data. |
| Sfo.RowExactly | RPI/sfo.c:165-200 | For one row: which offsets and sizes make it unfit, or make its key or its value stray. |
| Sfo.StrayExample | RPI/sfo.c:158-202 | Data of thirty-six bytes that are read past their end. |
| Sfo.FindEntry | RPI/sfo.c:225-239 | The first entry with the key, and null exactly if there is none. |
| Sfo.RoundTrip | RPI/sfo.c:133-223 | The image of a table loads as the same entries in the same order, and as no others. |
| Sfo.LaidIsTable | RPI/sfo.c:158-202 | The same for any data in which the sections stand where the header says. |
| Query.UrlEncode | RPI/util.c:12-39 | The buffer holds the encoding and a NUL, and is large enough. |
| Query.EncodeKeepsExactly | RPI/util.c:27-35 | A value is its own encoding exactly if each of its characters has the code of a letter, a digit or one of -_.~+:/@ |
| Query.EncodedAs | RPI/util.c:5-35 | Every other character becomes '%' and the two lower-case hex digits of its code. |
| Query.EncodeCounts | RPI/util.c:12-39 | The encoding has one '%', and two characters more, for each such other character. |
| Query.UrlDecode | RPI/sandbird.c:98-113 | The decoded value, or as much of it as fits, with a NUL; success exactly if one more character would have fitted. |
| Query.HexToIntIs | RPI/sandbird.c:93-95 | Every hex digit of either case has its value, and every other character the number the code gives it. |
| Query.HexPairBits | RPI/sandbird.c:102 | For any two characters, hex digits or not, the bits of the decoded character. |
| Query.DecodeReads | RPI/sandbird.c:98-113 | However a value is written, with '+' for spaces and hex digits of either case, it is decoded to what is meant. |
| Query.JustFits | RPI/sandbird.c:98-113 | Success is exactly that one more character would have fitted, and the whole value is there exactly if it fits. |
| Query.JustFitsExample | RPI/sandbird.c:98-113 | Three characters in a buffer of four arrive whole and are reported as truncated. |
| Query.FindVarValue | RPI/sandbird.c:150-161 | The value of the first pair with the name, and null exactly if no pair has it. |
| Query.GetVarEx | RPI/sandbird.c:702-723 | The value is looked for in the query string and then in the body; not found exactly if neither has it. |
| Query.DecodeInverts | RPI/sandbird.c:98-113 | Decoding an encoded value gives it back, each '+' read as a space. |
| Query.QueryRoundTrip | RPI/sandbird.c:702-723 | For a query and a body of plain names and values written in any of these ways: what the first value with the name means, or not found exactly if neither has the name. |

## Left out

- UtHash.Hash.Add: `unsigned` overflow of the item and bucket counts, and the HASH_NONFATAL_OOM rollback; memory for buckets is always granted.
- HashBuckets.FindInBkt: keys are strings compared whole, not memory compared by length; the bloom filter is off, as in the default build.
- ListSort.DLSort: overflow of the `int` run length, which needs more than 2^30 elements.
- SbReceiver.Receiver.HandleRequest: parsing the request line with `sscanf` and emitting the event; the request is handed on as its bytes.
- SbSender.Sender.SendStatus: formatting the line with `sb_buffer_vwritef`; the formatted line is a parameter, queued all or nothing as that function does.
- SbSender.Sender.ReadFile: a failing `read`, whose -1 the code stores in an unsigned length.
- SbList.MemStep: accesses within one C statement are one step; identifiers of streams are never reused, while `malloc` may reuse an address.
- SbProgress.SomebodyCanStep: serving a connection is one step that can always be made; a peer that never closes, or a header the search hangs on, keeps a thread in it.
- Download.DownloadFileCb: a body length of 2^64 - 1 or more, for which the size given to `malloc` wraps around.
- Download.Answers: servers that answer 200 with a part of the file, or 206 with another range; connection set-up, TLS and redirects.
- PkgSetup.SetupPrerequisites: reading the parameters, the text of the JSON file, digests, and writing the files; only the numbers and bytes written are modelled.
- Sfo.LoadFromMemory: entries already appended are not freed when loading fails, and the model does not follow memory that is lost.
- Query.QueryRoundTrip: names that contain '&', '=', blanks or NUL, which no handler uses.
- A stream's receiving and sending fields are two classes; they share only the state, which sending takes over at SENDING_STATUS.
- `json_getPropertyValue` and the typed readers of `tiny-json.h`: one-line wrappers.
- `LL_SORT2` and the singly linked macros of `utlist.h`: the same merge without `prev`.
- `HASH_SRT`, `HASH_SELECT`, replacing and in-order adding in `uthash.h`: not used by the repository.
- `sb_close_server`, sockets, file descriptors, timeouts, cookies and multipart: plumbing around the modelled core.
- Endpoint handlers of `RPI/server.c`, `installer.c`, `net.c`, `module.c`, `main.c`, `KPutil.c`: calls into the console SDK.
