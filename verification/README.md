# The data layer of the YATE engine, modelled and proved

YATE's engine keeps its working data in a handful of containers and codecs: a growable byte block, Base64 text,
reference-counted numeric vectors, a hashed object list, a few template algorithms, and the loop that feeds a
compressor. This project models those and proves what they are for. Methods keep the shape of the C++ code (the same
branches, loops, buffers and moving positions); each one is proved against a function or a predicate on plain
sequences, multisets or machine states, and the laws are then proved about those.

| file | models |
|---|---|
| `Bytes.dfy`, `Memory.dfy` | memcpy, memmove, memset; an allocator that may refuse any request and knows which buffers are live |
| `BlockMoves.dfy` | the raw-buffer helpers of `DataBlock`, in place and out of place |
| `DataBlock.dfy`, `BlockRuns.dfy` | `DataBlock` and whole runs of its operations |
| `HexText.dfy` | the grammar of hexadecimal texts and the guessing of their separator |
| `SqlEscape.dfy` | escaping for SQL |
| `Octets.dfy`, `ByteOrder.dfy`, `BlockFields.dfy` | integer fields in network and LSB byte order, written to blocks and read back |
| `Base64Text.dfy`, `Base64Layout.dfy`, `Base64.dfy`, `Base64Laws.dfy` | sections 3.1, 3.5 and 4 of RFC 4648: what the texts are, character by character, the encoder and the two decoders, the laws between them |
| `SliceVector.dfy`, `SliceRuns.dfy` | storages shared by counted windows, as a protocol over a pool of vectors, and whole runs of its operations |
| `HashTable.dfy`, `HashList.dfy`, `HashRuns.dfy` | buckets of object lists, lookup and resynchronisation, and whole runs of their operations |
| `YateSort.dfy`, `GenericVector.dfy` | the sort, the generic vector |
| `RunText.dfy`, `BufDump.dfy`, `Decimals.dfy` | range printing and the text it writes, numbers spelled in decimal |
| `DumpReader.dfy`, `DumpSeparators.dfy` | reading that text back, and which separators allow it |
| `Compressor.dfy` | the pump loop around an abstract codec |
| `Grants.dfy`, `Numbers.dfy` | counting the allocations refused along a run; division |

Main results, and what turned out not to hold as promised:

- **DataBlock.** Any run of operations does to the block what the same run does to a plain byte sequence, whatever the
  capacity, over-allocation, reallocation and overlap settings and whichever allocations fail; only operations that
  need another buffer ask for one, and the heap ends up with the block's own buffer as the only difference. `cut` does
  not depend on the allocator at all; `change` and `changeHex` either complete or leave the contents alone. The fill
  of `moveData` is exact if and only if the data is not moved toward the end by more than its own length: beyond that
  it also wipes the gap between the two ranges.
- **Hexadecimal texts.** `changeHex` accepts exactly the documented grammar if and only if the separator is not itself
  a hexadecimal digit; bytes written with any other separator are inserted as they are. Guessing the separator agrees
  with being told it except for the two texts that consist of one or two separators and nothing else; for malformed
  texts the exact condition for the same error code is given.
- **Base64.** The text is known character by character: RFC 4648's alphabet, each 6-bit digit, each line break, each
  padding sign. Liberal decoding undoes encoding for every non-empty input, line length and end-of-line setting. Strict
  decoding is canonical: it succeeds exactly on the unbroken encoding of what it returns, up to padding at the end.
  The encoder's layout is the padded text cut into lines if and only if no line break falls between two padding
  characters. When memory is refused, `decode` still reports success for a text made of whole groups and leaves the
  block empty.
- **SliceVector.** Any run of constructions, slices, assignments, resizes, concatenations, writes and destructions
  leaves vectors that show what the same run makes of plain windows on plain sequences, with the counters right all
  along, and a run that drops all vectors has deleted every storage. Runs steal only into vectors without storage:
  stealing into one that holds a storage always leaves that storage counted once too often.
- **HashList.** Any run of appends, removals and renamings (with the resynchronisation that follows) does what it does
  to a plain multiset of objects, and the lookup by name agrees with a scan of everything. `resync()` puts every
  object where its name belongs, loses none, and reports truthfully whether it moved anything. `resync(obj)` moves one
  node only, so it repairs the table if and only if the object strays at most once.
- **Sorting.** With any total preorder the result is sorted, stable and, by that, unique. The comments on the
  comparator (yateclass.h:1159-1166) give its sign the other way round than the code uses it; the model follows the
  code: a positive answer means that the first object goes behind the second.
- **SQL escaping.** Whatever the extra escape, the escaped texts are exactly the well-formed ones, with no special
  character left bare. Escaping is injective if and only if the extra escape is none of `0`, `r` and `n`.
- **Range printing.** Of the separators without digits, exactly these let two ascending vectors of a type be shortened
  to the same characters: none at all, the empty one, `-`, and for signed types also `--` and `,-`. Any vector can be
  read back from its characters with every other separator without digits, and with those with digits that can be told
  from the numbers around them.
- **Fields.** Values come back modulo 2^(8 * width), and reading stops where writing stopped.
- **GenericVector.** Any run does what it does to a plain sequence, except for exactly those operations that were
  refused memory, and only one that needs other slots than those there can be refused. Spare slots stay bounded and
  blank. Assigning an empty vector is ignored.
- **Compressor.** The codec is handed consecutive pieces, and everything it gives back is delivered in order. A call
  ends if and only if it does not lead the codec to a state from which, handed the rest again and again, it accepts 0
  bytes forever; every call ends if and only if the codec has no such state for any input. A failed read is not
  reported once anything has been taken.

## Model

| member | source | states |
|---|---|---|
| Memory.Heap.DbAlloc | engine/DataBlock.cpp:80-86 | a refused request changes nothing; a granted one gives a fresh buffer that takes over the old bytes and releases the old buffer |
| BlockMoves.MoveData | engine/DataBlock.cpp:498-535 | the buffer afterwards, cell by cell, including which cells are filled; memcpy is only used on disjoint ranges |
| BlockMoves.FillIsExactIff | engine/DataBlock.cpp:498-535 | the fill hits exactly the vacated cells, for all buffers, if and only if the shift toward the end is not longer than the data |
| BlockMoves.MovedAt | engine/DataBlock.cpp:498-535 | every cell after the move: copied, reset by one of the three ways of filling, or unchanged |
| BlockMoves.RebuildDataInsert | engine/DataBlock.cpp:537-586 | the destination afterwards; without a fill value the gap is not touched |
| BlockMoves.RebuildDataRemove | engine/DataBlock.cpp:588-625 | the destination afterwards, rest of the declared length filled |
| BlockMoves.RebuiltInsertAt | engine/DataBlock.cpp:537-586 | every cell of the destination: the source around the gap, the gap filled or left alone |
| BlockMoves.RebuiltRemoveAt | engine/DataBlock.cpp:588-625 | every cell of the destination: the source without the removed cells, the fill behind it |
| BlockMoves.InsertInPlaceOrRebuilt | engine/DataBlock.cpp:498-586 | opening a gap in place or in another buffer leaves the gap alone and, once it is filled, gives the same plain insertion |
| BlockMoves.RemoveInPlaceOrRebuilt | engine/DataBlock.cpp:588-625 | closing a gap in place or in another buffer gives the same plain removal |
| Blocks.AllocLenIsLeast | yateclass.h:7480-7487 | both branches give the least multiple of 8 that holds the length and the over-allocation |
| Blocks.OverAllocServes | yateclass.h:7480-7487 | in a buffer just sized for a length, up to the over-allocation more can be added without asking for memory, and never 8 bytes beyond it |
| Blocks.InsertedParts | engine/DataBlock.cpp:136-181 | an insertion is the bytes before the clamped position, the new bytes, the fill and the bytes behind |
| Blocks.CutCells | engine/DataBlock.cpp:247-284 | a removal byte by byte, as much of the range as exists |
| Blocks.DataBlock.Clear | engine/DataBlock.cpp:123-134 | the block is empty and its buffer is freed exactly when asked |
| Blocks.DataBlock.Assign | engine/DataBlock.cpp:183-223 | contents and capacity after copying, zeroing or adopting a buffer, which may be the block's own; when zeroing keeps the buffer; empty when memory is refused; no buffer leaks |
| Blocks.DataBlock.MakeRoom | engine/DataBlock.cpp:154-176 | the three ways of opening the gap all leave the old bytes around it; which capacity is left; the same buffer is kept, without asking for memory, exactly when the bytes fit and cannot overlap; a refused allocation leaves the block as it was |
| Blocks.DataBlock.Change | engine/DataBlock.cpp:136-181 | inserts the buffer and the fill bytes at the clamped position, or fails with contents, buffer and capacity unchanged; which capacity is left; asks for memory, and so can fail, only for the first bytes, past the capacity or when the bytes may overlap |
| Blocks.DataBlock.Cut | engine/DataBlock.cpp:247-284 | removes exactly the requested range even when no smaller buffer can be had; when one is asked for and which capacity is left |
| Blocks.DataBlock.Resize | engine/DataBlock.cpp:225-245 | contents, length and capacity for each combination of settings, granted or refused: with the data kept the front is unchanged and growth is zeros, otherwise all is zeros; which of them keep the buffer and ask for no memory |
| Blocks.DataBlock.GuessSeparator | engine/DataBlock.cpp:393-408 | the loop over the candidates returns the first one the text suggests |
| Blocks.DataBlock.DecodeHex | engine/DataBlock.cpp:434-446 | the decoding loop finishes exactly on well-formed texts, with the octets they spell in the gap |
| Blocks.DataBlock.ChangeHex | engine/DataBlock.cpp:385-453 | result, result code, contents and capacity for every text: the spelled octets between the bytes before and behind the position, empty, wrong length (-3), malformed (-2), out of memory (-1); contents and buffer unchanged unless it succeeds |
| HexText.OctetsDenote | engine/DataBlock.cpp:420-446 | scanning a text succeeds with b exactly when it is a sequence of digit pairs that denote b, separated as demanded |
| HexText.DigitsAre | engine/DataBlock.cpp:362-378 | the digits are 0 to 9 and a to f in either case |
| HexText.OctetIs | engine/DataBlock.cpp:362-443 | digits number h and l, the high one first, denote 16 * h + l |
| HexText.WrittenIsRead | engine/DataBlock.cpp:385-453 | any bytes written with two digits each, high digit first, and any separator that is no digit, or none, are read back, with the separator told or, when it is a candidate, guessed |
| HexText.CandidatesAre | engine/DataBlock.cpp:394 | the candidates and their order |
| HexText.RefusedByLength | engine/DataBlock.cpp:409-433 | which texts are empty and which have a wrong length |
| HexText.ParseReadsItsFrame | engine/DataBlock.cpp:409-446 | the outcome is b exactly when the text is such a sequence with the outer separators that were dropped |
| HexText.AcceptsTheGrammar | engine/DataBlock.cpp:385-453 | with no separator or one that is not a digit, exactly the texts of the grammar are accepted, with the octets they denote |
| HexText.SeparatorMustNotBeHex | engine/DataBlock.cpp:409-446 | that agreement holds for all texts if and only if the separator is not a hexadecimal digit |
| HexText.HexSeparatorFails | engine/DataBlock.cpp:409-446 | for any digit c as separator, the text cc of the grammar is taken as empty |
| HexText.GuessFindsSeparator | engine/DataBlock.cpp:393-408 | a text of the grammar with a candidate separator is read the same without being told it |
| HexText.GuessingAgrees | engine/DataBlock.cpp:393-408 | on every text written with a candidate separator (those of its grammar and those without octets), guessing and being told agree if and only if the text is not just one or two separators |
| HexText.GuessedCodeIff | engine/DataBlock.cpp:393-446 | for any text, guessing gives the octets or the very error that being told a candidate gives, if and only if a condition on length, separator guessed and its grammar holds |
| HexText.GuessingAcceptsAll | engine/DataBlock.cpp:393-446 | with guessing, a text is accepted as b exactly when it is framed without separator or with one of the candidates and denotes b |
| BlockRuns.Step | engine/DataBlock.cpp:123-284 | one operation acts on contents and capacity as specified for the plain sequence, and fails exactly when memory is refused, which only an operation that needs memory can be |
| BlockRuns.Run | engine/DataBlock.cpp:123-453 | any run, hexadecimal input included, acts as the same run on a plain sequence without exactly those operations that were refused memory, each of which needed it at that capacity; leaks or frees nothing it should not |
| BlockRuns.RunBoth | engine/DataBlock.cpp:123-453 | two blocks with the same contents but other buffers, capacities and over-allocations, run with other such settings, end with the same contents unless one is refused memory |
| BlockRuns.ChangeThenCut | engine/DataBlock.cpp:136-284 | cutting what was just inserted restores the block, whatever the settings, buffers and allocations |
| BlockRuns.CutThenChange | engine/DataBlock.cpp:136-284 | putting back what was cut restores the block, unless memory is refused for it |
| BlockRuns.InsertWritten | engine/DataBlock.cpp:385-453 | octets written in hexadecimal are inserted as they are, unless memory is refused |
| SqlEscape.CountEscaped | engine/DataBlock.cpp:464-472 | the counting pass predicts the length of the escaped text, and finds when nothing needs escaping |
| SqlEscape.SqlEscape | engine/DataBlock.cpp:460-496 | appends the escaped data and fills the prepared space exactly |
| SqlEscape.EscapedByte | engine/DataBlock.cpp:455-495 | the escaped form of each byte, written out |
| SqlEscape.NothingBare | engine/DataBlock.cpp:455-496 | whatever the extra escape, the escaped text is made of bare characters that need no escaping and of backslash pairs that name one that does |
| SqlEscape.NothingEnds | engine/DataBlock.cpp:455-496 | whatever the extra escape, the escaped text holds no NUL, CR or LF, and every quote and extra escape comes right behind a backslash |
| SqlEscape.UnescapedEscaped | engine/DataBlock.cpp:455-496 | unescaping undoes escaping for an extra escape other than 0, r and n |
| SqlEscape.EscapedUnescaped | engine/DataBlock.cpp:455-496 | every well-formed text is the escaped form of what it unescapes to, whatever the extra escape |
| SqlEscape.WellEscapedIff | engine/DataBlock.cpp:455-496 | the well-formed texts are exactly the escaped forms |
| SqlEscape.InjectiveIff | engine/DataBlock.cpp:455-496 | escaping is injective on all byte strings if and only if the extra escape is none of 0, r and n |
| SqlEscape.Collision | engine/DataBlock.cpp:479-489 | each of those three makes two different bytes escape alike |
| SqlEscape.EscapedAdds | engine/DataBlock.cpp:473-495 | escaping piece by piece is escaping the whole |
| ByteOrder.NtohAdvance | yateclass.h:7270-7281 | reads the field at the position and leaves the position behind it, widths over 8 read 8 bytes |
| ByteOrder.HtonAdvance | yateclass.h:7310-7320 | writes exactly the field, most significant byte first, and nothing else |
| ByteOrder.LsbSetAdvance | yateclass.h:7388-7393 | writes exactly the field, least significant byte first |
| ByteOrder.LsbAdvance | yateclass.h:7348-7355 | reads the field, least significant byte first |
| ByteOrder.FieldAt | yateclass.h:7310-7393 | each byte of a field is the value divided by its power of 256, highest first in network order and lowest first in LSB order |
| ByteOrder.NtohOfHton | yateclass.h:7270-7320 | reading back a field of w bytes gives the value modulo 2^(8w) |
| ByteOrder.HtonOfNtoh | yateclass.h:7270-7320 | any bytes are the field of the value they are read as |
| ByteOrder.LsbIsReversed | yateclass.h:7388-7393 | the LSB field is the network field reversed |
| ByteOrder.FromLsbIsNtohReversed | yateclass.h:7348-7355 | reading a field in LSB order is reading its reversal in network order |
| ByteOrder.Ntoh8IsNtoh | yateclass.h:7000-7010 | the unrolled 8-byte reader is the loop |
| ByteOrder.Ntoh4IsNtoh | yateclass.h:7074-7080 | the unrolled 4-byte reader is the loop |
| ByteOrder.Ntoh32IsNtoh | yateclass.h:7141-7210 | the unrolled 3-byte and 2-byte readers are the loop |
| ByteOrder.Hton8IsHton | yateclass.h:7037-7046 | the unrolled 8-byte writer is the loop |
| ByteOrder.Hton4IsHton | yateclass.h:7108-7113 | the unrolled 4-byte writer is the loop |
| ByteOrder.Hton32IsHton | yateclass.h:7174-7241 | the unrolled 3-byte and 2-byte writers are the loop |
| ByteOrder.ZeroField | yateclass.h:6530-6553 | the shortcut for the value zero writes what the general path would |
| BlockFields.ChangeField | yateclass.h:6530-6561 | a field in either order is inserted at the position, or the contents are unchanged when memory is refused |
| BlockFields.FieldBytes | yateclass.h:6530-6561 | the bytes inserted for a field, as numbers |
| BlockFields.AppendFields | yateclass.h:6634-6643 | a run of appends adds the fields one after the other; exactly those refused memory are missing, one for each allocation that failed |
| BlockFields.ReadFields | yateclass.h:7270-7355 | reading fields where they were written gives each value modulo 2^(8 * width) and ends where they end |
| BlockFields.AppendThenRead | yateclass.h:6634-7355 | what is appended to a block is read back from it, and the block has grown by exactly those bytes |
| Base64.AddEoln | engine/Base64.cpp:76-90 | writes a line break when the line is full; position plus two per break left is kept |
| Base64.AddEnc | engine/Base64.cpp:92-100 | writes one character after a break if due, in line with the text still to come |
| Base64.Encode | engine/Base64.cpp:137-191 | the text is the specified one: characters, breaks, padding and end of line |
| Base64Layout.CharIsSymbol | engine/Base64.cpp:34-100 | every character is the one of RFC 4648, Table 1, for its code |
| Base64Layout.CodesAt | engine/Base64.cpp:159-188 | the codes are the 6-bit digits of each group of three bytes, highest first, missing bytes as zero |
| Base64Layout.PaddedLength | engine/Base64.cpp:145-150 | four characters for every group of three bytes begun |
| Base64Layout.BreaksNeeded | engine/Base64.cpp:151-157 | as many line breaks as full lines have characters behind them |
| Base64Layout.CharPlace | engine/Base64.cpp:76-188 | where each character stands, and where CR and LF do |
| Base64Layout.PadPlace | engine/Base64.cpp:137-191 | behind the characters there are = signs up to the length of the text |
| Base64Layout.TextLength | engine/Base64.cpp:137-191 | the length of the text, and the CR and LF at its end when asked for |
| Base64.EncodeChars | engine/Base64.cpp:159-188 | the writing loops stay inside the prepared text and write exactly the broken characters |
| Base64.AddDec | engine/Base64.cpp:102-134 | writes the octets of a group, keeps the bytes before and behind them, and refuses non-zero bits left over |
| Base64.DecodeStrict | engine/Base64.cpp:229-265 | the strict loop succeeds exactly on alphabet characters, with the octets of the full groups in place |
| Base64.DecodeLiberal | engine/Base64.cpp:267-284 | the liberal loop succeeds exactly on alphabet and ignored characters and sees what the counting pass counted |
| Base64.CountLiberal | engine/Base64.cpp:199-212 | the counting pass: how many characters are kept, and whether any is unreadable |
| Base64.Decode | engine/Base64.cpp:194-287 | result and block are those of the two reference decoders; the length left behind by a refused text; what is reported when memory is refused |
| Base64Text.AlphabetInverse | engine/Base64.cpp:34-66 | the two tables are inverse to each other |
| Base64Text.AlphabetIs | engine/Base64.cpp:34-35 | the alphabet, written out |
| Base64Text.CodesAre | engine/Base64.cpp:37-66 | exactly its characters have a code, their place in it |
| Base64Text.IgnoredAre | engine/Base64.cpp:27-30 | the characters skipped, the padding and the line end, written out |
| Base64Text.CodesAreNumbers | engine/Base64.cpp:102-188 | the four codes of three bytes as numbers |
| Base64Text.OctetsOfSextets | engine/Base64.cpp:102-188 | regrouping bytes to 6 bits and back is the identity |
| Base64Text.SextetsOfOctets | engine/Base64.cpp:102-188 | regrouping 6 bits to bytes and back is the identity where the bits left over are zero |
| Base64Laws.LiberalRoundTrip | engine/Base64.cpp:137-287 | liberal decoding undoes encoding for every non-empty input, line length and end-of-line setting |
| Base64Laws.StrictIsCanonical | engine/Base64.cpp:212-265 | strict decoding gives b exactly for the unbroken encoding of b, up to trailing padding |
| Base64Laws.StrictRoundTrip | engine/Base64.cpp:137-265 | strict decoding undoes unbroken encoding |
| Base64Laws.StrictIsInjective | engine/Base64.cpp:212-265 | texts with the same strict reading differ only in trailing padding |
| Base64Laws.LiberalIsStrictOnKept | engine/Base64.cpp:199-287 | liberal decoding succeeds with b exactly when all characters are readable and strict decoding of the kept ones gives b |
| Base64Laws.KeepOfOne | engine/Base64.cpp:199-212 | the liberal reading drops exactly those characters |
| Base64Laws.KeepConcat | engine/Base64.cpp:267-284 | and keeps the others in order |
| Base64Laws.LayoutIsLinesIff | engine/Base64.cpp:137-191 | the layout is the padded text cut into lines if and only if no break falls between two padding characters |
| Base64Laws.LinesAreFull | engine/Base64.cpp:137-191 | those lines have exactly the line length, the last one at least one character, and join to the unbroken text |
| Base64Laws.UnbrokenEncoding | engine/Base64.cpp:137-191 | without a line length the text is the padded characters |
| SliceVectors.RefStorage.Ref | yatemath.h:1260-1261 | a storage being deleted cannot be held again |
| SliceVectors.Pool.HeldIsLive | yatemath.h:1220-1270 | under the invariant no window looks into a deleted storage |
| SliceVectors.Pool.NothingLeaks | yatemath.h:1220-1270 | once no vector is left every storage has been deleted |
| SliceVectors.SliceVector.SetData | yatemath.h:1220-1231 | points at data, or gives the storage up |
| SliceVectors.SliceVector.Release | yatemath.h:1220-1231 | giving the storage up keeps every counter right and deletes at zero |
| SliceVectors.SliceVector.InitStorage | yatemath.h:1234-1247 | a new storage holds the copied elements and zeros, counted once; succeeds exactly when there is something to hold and memory is granted |
| SliceVectors.SliceVector.InitSlice | yatemath.h:1250-1270 | becomes the window asked for, on the same storage, counters kept; otherwise unchanged or emptied as asked |
| SliceVectors.SliceVector.Resize | yatemath.h:631-637 | succeeds exactly up to the maximum length |
| SliceVectors.SliceVector.ResetStorage | yatemath.h:665-668 | zeros up to the maximum length in a storage of its own, the old storage given up; succeeds exactly when there is something to hold and memory is granted |
| SliceVectors.SliceVector.Destroy | yatemath.h:491-492 | the vector leaves the pool, counters kept |
| SliceVectors.SliceVector.StealIntoEmpty | yatemath.h:649-657 | stealing into a vector without storage keeps the invariant |
| SliceVectors.SliceVector.StealLeaks | yatemath.h:649-657 | stealing into a vector that holds a storage leaves it counted once more than it has holders |
| SliceVectors.SliceVector.Write | yatemath.h:501-534 | a write shows in exactly the windows, and at exactly the positions, that cover the cell |
| SliceVectors.SliceVector.Concatenate | yatemath.h:450-474 | the new vector holds the elements of the others one after the other unless memory is refused, counters kept |
| SliceRuns.Step | yatemath.h:418-1270 | one operation does to the vectors what it does to plain windows; the other vectors of the pool stay in it; only an operation that allocates can be refused |
| SliceRuns.Run | yatemath.h:418-1270 | any run leaves vectors that show what the same run makes of plain windows, the counters right and the other vectors in the pool; exactly as many operations as allocations are refused, each of which needed one; a run that drops all its vectors, where there are no others, has deleted every storage |
| SliceRuns.SoundAfter | yatemath.h:418-1270 | every window stays inside its store |
| SliceRuns.SliceShows | yatemath.h:1250-1270 | a slice shows the elements it was cut from, or nothing when they are not all there |
| SliceRuns.WriteShows | yatemath.h:501-534 | a write on plain windows shows in exactly those, and at exactly the places, that cover the cell |
| SliceRuns.ShownIsContents | yatemath.h:418-1270 | what a window shows is what the vector holds |
| SliceRuns.NewShows | yatemath.h:450-1247 | a new vector shows zeros, a concatenation the elements of both, nothing when memory is refused |
| SliceRuns.AssignShows | yatemath.h:1250-1270 | a vector assigned a slice shows that slice |
| SliceRuns.ChangedShows | yatemath.h:631-668 | a resize keeps the elements in front, a reset shows zeros |
| SliceRuns.MovedShows | yatemath.h:491-657 | a steal hands over what was shown, a drop takes one vector out |
| SliceRuns.OthersShowTheSame | yatemath.h:418-1270 | all other vectors show what they showed before |
| HashTable.LookupIsScan | engine/HashList.cpp:89-94 | in a well-placed table the lookup by name finds the very node a scan of all buckets finds |
| HashTable.ScanFinds | engine/HashList.cpp:89-94 | the scan succeeds exactly when some node holds an object of that name |
| HashTable.HashIsPolynomial | engine/String.cpp:2018-2027 | the hash takes each character on top of 65599 times what those before it give, modulo 2^32 |
| HashTable.PlacedIffNoStrays | engine/HashList.cpp:135-157 | where all other objects are well placed, the table is well placed exactly when this object does not stray |
| HashLists.HashList.Count | engine/HashList.cpp:53-60 | the number of objects in all buckets |
| HashLists.HashList.FindObject | engine/HashList.cpp:68-78 | the first node that holds the object, and none exactly when no bucket holds it |
| HashLists.HashList.FindObjectByHash | engine/HashList.cpp:80-87 | the same, in the bucket of the hash only |
| HashLists.HashList.FindByName | engine/HashList.cpp:89-94 | the lookup, which in a well-placed table is the scan |
| HashLists.HashList.Append | engine/HashList.cpp:96-105 | adds the object behind the others in the list of its name and nothing else; a name found before finds the same object, a name not found before finds the new one; keeps the table well placed |
| HashLists.OldestNamesake | engine/HashList.cpp:96-105 | behind an append to the end of the list, a name that found an object finds the same one |
| HashLists.HashList.Remove | yateclass.h:5868-5894 | removes the first node of the object in its list or changes nothing, the others keep their order; finds it whenever it is held, by hash exactly when the bucket of its name holds it |
| HashLists.HashList.RemoveByName | yateclass.h:5868-5874 | removes the very object the lookup finds, the others keep their order; in a well-placed table that is the one the scan finds |
| HashLists.HashList.Resync | engine/HashList.cpp:159-183 | terminates, keeps the multiset of objects, leaves all well placed, true exactly when something was misplaced |
| HashLists.HashList.ResyncBucket | engine/HashList.cpp:163-180 | the walk over a list that is being changed leaves every object in it well placed and keeps all objects; it reports a move exactly when the list held one that was not |
| HashLists.HashList.ResyncOne | engine/HashList.cpp:135-157 | moves one stray node; repairs the table if and only if the object strays at most once |
| HashRuns.HeldIff | engine/HashList.cpp:68-78 | some bucket holds an object exactly when it is among the objects of the table |
| HashRuns.ScanIff | engine/HashList.cpp:89-94 | the scan finds a name exactly when the table has an object of that name |
| HashRuns.Step | engine/HashList.cpp:68-183 | one operation is that operation on a plain multiset: a removal takes out an object asked for if and only if there is one, whatever else changes nothing but what it says, and the lookup invariant holds under the names that apply afterwards |
| HashRuns.Run | engine/HashList.cpp:68-183 | any run is the same run on a plain multiset, answer by answer; names are those of the last renaming; afterwards lookup and scan agree on every name and succeed exactly when there is an object of that name |
| HashRuns.Conserved | engine/HashList.cpp:96-183 | along any run every object that was there or appended is still there or among those removed, with its flag |
| YateSort.Pass | yateclass.h:1175-1185 | after a pass everything from the last swap on is settled, the pass is a stable permutation, and items behind the sorted part are untouched |
| YateSort.SwapIsStable | yateclass.h:1181-1183 | swapping two neighbours out of order keeps the order of equals |
| YateSort.ClassOfOne | yateclass.h:1169-1187 | which elements count as equal |
| YateSort.ClassConcat | yateclass.h:1169-1187 | and that they are taken in order |
| YateSort.Sort | yateclass.h:1169-1187 | permutes the first len items and no others for any comparator; for a total preorder no item compares positive with a later one, and equals keep their order |
| YateSort.SortVal | yateclass.h:1196-1216 | permutes the first len values and no others, ascending or descending |
| YateSort.StableSortIsUnique | yateclass.h:1169-1187 | there is only one sorted stable arrangement, so the result is determined |
| GenericVectors.GenericVector.Assign | yateclass.h:4903-4923 | the new contents, the rest of the slots blank; nothing for length 0; fails exactly when memory is refused |
| GenericVectors.GenericVector.Resize | yateclass.h:4932-4944 | keeps the front and exposes only blanks, item by item; allocates only past the end or when too many slots would be spare, otherwise cannot fail; which size is left |
| GenericVectors.GenericVector.RemoveLast | yateclass.h:4951-4959 | drops the last items, or all; cannot fail unless too many slots would be spare |
| GenericVectors.GenericVector.Append | yateclass.h:5026-5034 | appends, or changes nothing; cannot fail while spare slots suffice |
| GenericVectors.GenericVector.AppendSelf | yateclass.h:5103-5112 | doubling works although the source is the vector itself; cannot fail while spare slots suffice |
| GenericVectors.GenericVector.AssignFrom | yateclass.h:5076-5079 | unless memory is refused the vector equals the one assigned if and only if that is not empty or nothing was there before |
| GenericVectors.Step | yateclass.h:4888-5112 | one operation acts as on a plain sequence; exactly those refused memory do nothing, and only one that needs other slots can be refused |
| GenericVectors.Run | yateclass.h:4888-5112 | any run acts as on a plain sequence, counting exactly the refused operations, each of which needed other slots; spare slots bounded by the over-allocation and blank throughout |
| GenericVectors.ShrinkAndGrow | yateclass.h:4932-4944 | items given up by shrinking do not come back |
| BufDump.BufDump | yateclass.h:7931-7952 | appends the characters of a division of the vector into runs, maximal when compact and single values otherwise; nothing for a null buffer |
| BufDump.DumpRuns | yateclass.h:7936-7947 | the loop writes the characters of the maximal runs that make up the vector |
| BufDump.AppendTo | yateclass.h:7970-7973 | appends the separator, if any and not at the start of the text, and the value in decimal |
| RunText.RunsAreMaximal | yateclass.h:7936-7947 | the runs of a vector are runs, cannot be made longer, and make up the vector |
| RunText.MaximalIsUnique | yateclass.h:7936-7947 | there is only one division into maximal runs |
| RunText.RunTextIs | yateclass.h:7936-7947 | the characters of one run: one value, two with a comma, or the first and the last with a dash |
| RunText.RunsTextIs | yateclass.h:7931-7973 | runs stand one behind the other, each behind the separator but for the first of the string |
| RunText.SinglesAre | yateclass.h:7948-7950 | not shortened, every value is a run of its own |
| Decimals.SpellIs | engine/String.cpp:1148-1174 | how numbers are spelled, digit by digit |
| Decimals.ReadSpelled | engine/String.cpp:1148-1174 | a number spelled in decimal is read back whatever follows it that is not a digit |
| DumpReader.ReadsBack | yateclass.h:7931-7973 | reading the characters gives back any vector, whatever its order, when the separator can be told from the numbers |
| DumpSeparators.ApartIff | yateclass.h:7931-7973 | for every separator without digits and every element type: no two ascending vectors share a text if and only if the separator can be told from the numbers, that is none of the five named |
| DumpSeparators.ClearKeepsApart | yateclass.h:7931-7973 | a separator that can be told from the numbers, with digits or not, keeps all vectors apart |
| DumpSeparators.Collisions | yateclass.h:7931-7973 | two different vectors with the same text for each of the five separators |
| Compressors.NoGapNoRepeat | engine/Compressor.cpp:38-48 | at any moment every write was handed exactly what was left, and the pieces taken are the front of the input |
| Compressors.ResultMeans | engine/Compressor.cpp:49-61 | what the returned number says: all taken, part taken and a write or read failed, nothing taken; negative if and only if a write failed before anything was taken |
| Compressors.NothingAfterFailure | engine/Compressor.cpp:53-58 | after a failed write or read the codec is not called again |
| Compressors.EndsIff | engine/Compressor.cpp:37-60 | a call ends if and only if it does not lead the codec to a state and a rest on which, written and read again and again, it takes 0 bytes forever without failing |
| Compressors.LoopSpins | engine/Compressor.cpp:37-60 | from there on the loop's rounds are that iteration of the codec |
| Compressors.AlwaysEndsIff | engine/Compressor.cpp:37-60 | every call ends if and only if the codec takes 0 bytes forever of no input from no state |
| Compressors.Compress | engine/Compressor.cpp:26-100 | unless it leads the codec to such a state, the call is a sequence of rounds: the codec is handed what is left, then read, what was read is appended, and so on until something fails or nothing is left; the number returned; all as the reference does |

## Left out

- realloc: a grown or shrunk buffer is always a fresh one here; that the C library may keep it in place is not modelled.
- Blocks.DataBlock.Change: the source is not the block's own buffer. With one the code opens the gap in a new buffer,
  adopts that, which releases the old one (engine/DataBlock.cpp:166), and copies from the released buffer after that
  (engine/DataBlock.cpp:177), so there is no content to promise. (`assign` of the block's own buffer and
  `GenericVector +=` on itself are modelled.)
- Sources inside a buffer but not at its start: pointers into the middle of the destination are not modelled.
- Unsigned wrap-around of lengths and sums, and the conversion of lengths to int: all lengths stay below 2^31,
  over-allocation and rounding included.
- Fill values are bytes; the C code takes them as int, and a negative one ("do not fill") is `None` here.
- Bit operations on 64-bit values: shifts are divisions and multiplications by powers of 256, and OR-ing a byte into
  bits that are zero is adding it.
- SqlEscape.SqlEscape: the string appended to is a byte sequence; strings stop at an embedded NUL, and a refused
  allocation there is not modelled.
- BufDump.BufDump: the overflow of a signed difference is not modelled, the wrap-around of an unsigned one is;
  shortening unsigned values that are not ascending, against the assumption at yateclass.h:7928, is left out, and so
  are floating-point values.
- DumpSeparators.ClearKeepsApart: for separators with digits in them the condition is sufficient only; which of those
  that fail it keep vectors apart all the same depends on the values of the type and is open.
- Base64.Decode: what the destination holds after a text is refused (its length is stated); the debug messages and the
  length stored in the object itself (the object is its own input block).
- SliceVectors.SliceVector.Write: elements are whole values; arithmetic on them, and on complex and floating-point
  numbers, is not modelled.
- SliceRuns.Run: a steal into a vector that holds a storage is skipped in runs; what it breaks is stated by
  SliceVectors.SliceVector.StealLeaks. The three-vector constructor is modelled but not among the runs' operations.
- The value-returning `tail` and the documented meaning of a slice length of 0 follow the code where modelled (0 means
  the whole length) and are left out otherwise.
- GenericVectors.GenericVector.Assign: a new item is the default item, as it is for class types; `new` leaves items of
  built-in types indeterminate. The over-allocation is fixed. Construction of items that throws is not modelled.
- HashLists.HashList.FindByName: names are compared by equality and hashed by the engine's string hash; matching by
  regular expressions is not modelled. An object's name is a function passed to each call, so renaming is changing it.
- HashLists.HashList.Remove: what becomes of the object removed (destruction or return) is up to the caller.
- Compressors.Compress: `decompress` is the same loop around the other two calls of the codec, so one method stands for
  both; the codec is deterministic in its hidden state.
- Reference counting across threads, locks and atomic operations: the storages are counted by one thread.
- `DataBlock::convert` and its G.711 tables, `exportParam`, `getParam`, `hexify`, `Array`, `Cipher`, NamedList and the
  rest of the engine: I/O, threads, user interface or code of little branching.
- Debug output everywhere.
