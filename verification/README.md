# Verification of the switch firmware

A Dafny model of the parts of this firmware that hold real state, and proofs about
them. `dafny verify dfyconfig.toml` checks everything.

- `common/` holds facts about sequences, an option type, and the bit operators on
  words seen as natural numbers.
- `json/` models the JSON library: text as a sequence of bytes (one `char` for each),
  escaping and unescaping, numbers, the recursive reading of a text, the text of a
  tree as one definition (`JsonText.Text`), both printers, and the in-place minifier.
  `Scanner` holds the loops of the parser. `Grammar` and `GrammarErrors` say by
  derivations which texts are read and where a reading sticks, `Layout` what sets the two
  prints apart, and `MinifyBytes` which byte of a text a minifier keeps.
- `tree/` models its memory: nodes and strings at addresses, with use after free and
  double free ruled out by the preconditions. It has deletion, duplication,
  references, naming, the list operations, and the parser that fills in nodes in place.
- `serial/` models the transmit engine: the ring buffer of `scr_code/FIFO.c` (its rows
  below cite the calls of it), a state machine
  of polls, DMA bytes, completions and callbacks, the functions of
  `veth_serial.c` on their own state, and the receive direction in the same way.
- `nor/` models the NOR block device down to halfwords whose bits can only be cleared.
- `switch/` models the trunk allocator on words, masks and port registers.
- `rstp/` models the link-change poller on its 32-bit bitmaps.

Main results: print and parse are inverse; the two printers agree; the parser reads
exactly the texts of a grammar, and fails exactly where that grammar sticks; minifying
turns the one print into the other, drops exactly the blanks and comments outside of
literals and keeps the meaning of every accepted text; deletion frees each owned node and
string once; a duplicate is fresh and equal; the parser in memory is the recursive
reading; the nodes handed over for transmission go out byte by byte, once and in order,
and every byte received is delivered, queued or in a counted rejected frame; the block
device is an array of sectors; the trunk tables agree over every run and the other bits
of the port registers survive it; the poller notifies each change once.

What the code does not do, proved as an exact condition:

- deleting a duplicate gives memory back exactly when no node carries a constant name
  (`References.DeletingRestores`); naming an item succeeds and leaves all other strings
  alone exactly when its flag says that its name is not constant and the new name is not
  inside the old one (`Naming.NamingSucceedsExactly`);
- without the check for the end of the text, minifying keeps what is read exactly when
  the value is no number or the minified rest does not continue it
  (`MinifyMeaning.MinifyKeepsExactly`); the minifier stays inside the text exactly on
  texts whose literals and block comments are closed (`MinifyInPlace.StaysInsideExactly`);
- a sector write is complete exactly when it stays inside one erase block
  (`NorArray.WritesAllExactlyInBlock`);
- a clear keeps the trunk tables consistent exactly when it names whole trunks
  (`TrunkSafety.ClearKeepsExactly`); creating a trunk of more than 8 ports leaves them
  claimed (`TrunkSafety.CreateSucceeds`); `TrunkRuns` reaches both cases from power-up;
- after the transmit poll acted on an outdated test, an engine that stopped meanwhile
  sends its next bytes in order exactly when a whole block is queued for the restart and
  at most one completion fell in between, or the test saw CT set, or the two blocks are
  the same bytes; a shorter queue overtakes the block that waits
  (`SerialGap.OneCompletionIsTheLimit`). The single-shot path keeps the order exactly
  when no block waits in memory (`SerialGap.LittleKeepsOrderExactly`);
- the second pass over a string literal stays inside the text and stops where the first
  did exactly on the literals that one walk over them finds
  (`JsonString.PassesAgreeExactly`);
- an interrupt in the reader's copy loop of the receive ring keeps the contents exactly
  when it does not fall between index and flag with a frame that reaches the end of the
  array (`FifoInterrupt.KeepsContentsExactly`);
- data shorter than one block is sent after the timeout exactly when a whole block was
  accepted before (`SerialSafety.ShortQueueSent`);
- a steady line loses no frame exactly when at most 25 blocks arrive for each client
  poll (`ReceiverModel.SteadyRate`).

Conventions. A pointer into a text is the text that remains. Numbers are exact reals.
Allocation succeeds. Each poll and each callback is one step, except in `SerialGap`,
where the poll is two, and in `FifoInterrupt`, where every statement of the reader's copy
loop is one. A method that changes state is proved against a function or a
relation on values, and the results about runs are lemmas on those.

## Model

| member | source | states |
|---|---|---|
| `JsonString.FastPathAgrees` | JSON/JSON_src/cJSON.c:401-420 | A NUL-free string without control bytes, quotes and backslashes is its own escaped form, so the copy-only path of the printer writes what the general path would. |
| `JsonString.EscapeTable` | JSON/JSON_src/cJSON.c:455-490 | Byte by byte, what the printer writes: the seven bytes with an escape of their own, `\u00` and two lower-case hex digits for the other control bytes, and every other byte as itself. |
| `JsonString.PassesAgree` | JSON/JSON_src/cJSON.c:301-388 | While the passes stay together the counting pass and the writing pass stop at the same byte, and no more bytes are written than were counted; malformed escapes are included. |
| `JsonString.PassesAgreeExactly` | JSON/JSON_src/cJSON.c:301-388 | Both passes stay inside the text and the second stops where the first did if and only if a single walk over the literal finds that the first gets over all that the second jumps over; and there what is written fits the measured memory. |
| `JsonString.UnescapeEscape` | JSON/JSON_src/cJSON.c:290-392 | Unescaping the escaped form of any NUL-free string gives the string back and stops at the closing quote. |
| `JsonString.EscapeDecodesToUtf8` | JSON/JSON_src/cJSON.c:333-377 | Every spelling of a scalar from 1 to 0x10FFFF, as one `\u` escape or as a surrogate pair (section 7 of RFC 8259), contributes exactly that scalar's UTF-8 form, by an independent decoder, and decoding goes on behind it. |
| `Literals.LiteralDecodes` | JSON/JSON_src/cJSON.c:306-388 | Every literal made of plain bytes, short escapes and spelled scalars (section 7 of RFC 8259), in any order and number, is taken up to its closing quote, and the text written is what its pieces mean, in order. |
| `Literals.LiteralParses` | JSON/JSON_src/cJSON.c:290-392 | So every such literal is read to its meaning, and reading goes on behind the closing quote. |
| `Literals.LiteralCounts` | JSON/JSON_src/cJSON.c:301-305 | The bytes asked for by the first pass over such a literal are those of its pieces. |
| `Literals.OtherEscape` | JSON/JSON_src/cJSON.c:378-382 | Any other byte behind a backslash stands for itself. |
| `Literals.UselessIsDropped` | JSON/JSON_src/cJSON.c:333-339 | An escape for 0 or for a second half alone contributes nothing. |
| `Literals.HalfIsDropped` | JSON/JSON_src/cJSON.c:341-344 | A first half with no `\u` behind it contributes nothing, and reading goes on right behind it. |
| `Literals.BadPairIsDropped` | JSON/JSON_src/cJSON.c:345-349 | A first half in front of a unit that is no second half: both are dropped. |
| `Literals.MalformedIsDropped` | JSON/JSON_src/cJSON.c:332-339 | A `\u` followed by four bytes of the literal that are not all digits is taken whole and contributes nothing. |
| `Literals.QuoteOverrun` | JSON/JSON_src/cJSON.c:332-339 | A literal with two bytes behind `\u`: the second pass steps over the closing quote, stays inside the text and stops at the next quote. |
| `Utf8.EncodeIsUtf8` | JSON/JSON_src/cJSON.c:346-377 | What the switch writes for a scalar decodes, by section 3 of RFC 3629 with overlong and surrogate forms refused, to that scalar and its length. |
| `Utf8.JoinInvertsPair` | JSON/JSON_src/cJSON.c:339-345 | Joining the two surrogates of section 2.2 of RFC 2781 gives back the scalar they stand for. |
| `Utf8.ContinuationExpression` | JSON/JSON_src/cJSON.c:362-373 | The C expression for a continuation byte, the scalar or-ed with 0x80, and-ed with 0xBF and cut to a byte, is the byte the model writes. |
| `Utf8.JoinExpression` | JSON/JSON_src/cJSON.c:350 | The C expression that masks, shifts and or-s the two surrogates is the join the model uses. |
| `JsonNumber.LiteralParses` | JSON/JSON_src/cJSON.c:109-146 | Every number literal of section 6 of RFC 8259 is read to its end, and sign, mantissa and scale plus exponent denote the value that its place values give. |
| `JsonNumber.LenientParses` | JSON/JSON_src/cJSON.c:109-146 | So is every literal the library reads besides, such as a lone sign, a missing first digit or an exponent without digits. |
| `JsonNumber.NumberIsLenient` | JSON/JSON_src/cJSON.c:109-146 | And a text that is read as a number to its end is one of these literals. |
| `JsonNumber.IntegerParses` | JSON/JSON_src/cJSON.c:109-239 | Parsing the decimal print of any integer returns it. |
| `Numerals.IntTextFits` | JSON/JSON_src/cJSON.c:201-239 | Every 32-bit integer prints in at most 11 bytes, so the 21 reserved bytes hold it. |
| `Numerals.IntTextShape` | JSON/JSON_src/cJSON.c:201-239 | Decimal digits without a leading zero, behind a minus sign exactly for the negative. |
| `RoundTrip.ValueParses` | JSON/JSON_src/cJSON.c:568-896 | The print of any tree, at any depth and in both formats, in front of any text that cannot continue a number, parses back to the tree and leaves exactly that text. |
| `RoundTrip.PrintThenParse` | JSON/JSON_src/cJSON.c:508-1091 | For every tree of null, booleans, 32-bit integers, NUL-free strings, arrays and objects, both prints parse back to the tree, consume the whole text and pass the end-of-text check. |
| `Grammar.AcceptsExactly` | JSON/JSON_src/cJSON.c:568-896 | A text is read as a value with a rest if and only if it is the spelling of a derivation that means this value, in front of that rest: any blanks before values, commas and brackets, any spelling of numbers and literals, any depth. Blanks, brackets, commas, colons and words are spelled without the parser; for the insides of numbers and literals see the rows of `JsonNumber` and `Literals`. |
| `Grammar.ParseExactly` | JSON/JSON_src/cJSON.c:516-543 | The same for a whole text, which with the check for its end has to close in blanks. |
| `GrammarErrors.RefusesExactly` | JSON/JSON_src/cJSON.c:568-896 | A text is refused at a place if and only if it is the beginning of a derivation, spelled up to that place, and what stands there cannot go on: each case says by its bytes why. |
| `GrammarErrors.ErrorPlaceExactly` | JSON/JSON_src/cJSON.c:516-543 | The same for a whole text: the error pointer is where it sticks or, with the check for its end, the first byte behind value and blanks. |
| `Layout.FormattedIsSpread` | JSON/JSON_src/cJSON.c:603-1091 | The formatted print is the unformatted one spread out, at every depth: a walk over its bytes alone puts a line break and tabs behind each opening brace and each comma of an object, a tab behind a colon, a space behind a comma of an array and a line break and tabs before each closing brace. |
| `Layout.UnformattedIsTight` | JSON/JSON_src/cJSON.c:603-1091 | The unformatted print has no space, tab, CR or LF outside of its string literals. |
| `Minify.MinifyValue` | JSON/JSON_src/cJSON.c:1463-1494 | Minifying a formatted print in front of any text gives the unformatted print in front of that text minified, at every depth. |
| `Minify.MinifyPrint` | JSON/JSON_src/cJSON.c:550-555 | Minifying the formatted print of any tree gives exactly its unformatted print. |
| `Minify.MinifiedNoLonger` | JSON/JSON_src/cJSON.c:1463-1494 | A minified text is never longer than the text. |
| `MinifyBytes.MinifiedIsKept` | JSON/JSON_src/cJSON.c:1463-1494 | For every closed text the minified text is its bytes that are kept, in order; which are is told by position and mode: all of a literal, nothing of a comment, and elsewhere all but space, tab, CR and LF. A text is closed if and only if the last mode is outside or in a line comment. |
| `MinifyBytes.LineComment` | JSON/JSON_src/cJSON.c:1474-1476 | A line comment is dropped up to the first LF behind it, and with that LF. |
| `MinifyBytes.BlockComment` | JSON/JSON_src/cJSON.c:1477-1482 | A block comment is dropped up to the first `*/` from its star on. |
| `MinifyBytes.MinifiedHasNoBlanks` | JSON/JSON_src/cJSON.c:1463-1494 | A walk over the minified text that steps over literals meets no space, tab, CR or LF. |
| `MinifyMeaning.NumberSwap` | JSON/JSON_src/cJSON.c:109-146 | A number is read to the same value in front of any text that cannot continue it. |
| `MinifyMeaning.LiteralLocal` | JSON/JSON_src/cJSON.c:290-392 | A closed string literal on which the passes stay together is decoded the same whatever follows it, surrogate look-ahead and malformed escapes included. |
| `MinifyMeaning.StringKeeps` | JSON/JSON_src/cJSON.c:1483-1489 | The parser and the minifier see the same end of a literal, and the minified literal is read to the same string. |
| `MinifyMeaning.ValueKeeps` | JSON/JSON_src/cJSON.c:1463-1494 | Any value accepted in front of blanks and a delimiter is read to the same value after minifying, up to the minified rest. |
| `MinifyMeaning.MinifyKeepsMeaning` | JSON/JSON_src/cJSON.c:1463-1494 | Every closed text that is accepted to its end, print or not, is accepted after minifying with the same value. |
| `MinifyMeaning.NumberBefore` | JSON/JSON_src/cJSON.c:109-146 | A number at the end of a text keeps its value in front of a further text, and leaves that text, exactly when the first bytes of it do not continue the number in the part it ends in. |
| `MinifyMeaning.MinifyKeepsExactly` | JSON/JSON_src/cJSON.c:516-543 | Without the check for the end of the text: for every closed text that is accepted, the minified text reads to the same value and the minified rest if and only if the value is no number or the minified rest does not continue it. |
| `MinifyMeaning.MinifyJoinsNumbers` | JSON/JSON_src/cJSON.c:516-543 | A text that shows the failing case: `1 2` is read as 1, its minified form as 12. |
| `MinifyInPlace.FindLineEnd` | JSON/JSON_src/cJSON.c:1474-1476 | The line-comment loop stops where the specification says. |
| `MinifyInPlace.FindBlockEnd` | JSON/JSON_src/cJSON.c:1477-1482 | The block-comment loop stops where the specification says. |
| `MinifyInPlace.CopyLiteral` | JSON/JSON_src/cJSON.c:1483-1489 | The literal is copied byte for byte to the write pointer, past escaped quotes, and the unread text is untouched; the flag says whether it is closed, which is where the C loop stays inside the text. |
| `MinifyInPlace.OneRound` | JSON/JSON_src/cJSON.c:1465-1493 | One round drops or copies what the specification says, which `MinifyBytes` states byte by byte, with the write pointer at or behind the read pointer; or it is flagged as the round in which the C code steps over the terminator, and then the text was not closed. |
| `MinifyInPlace.MinifyText` | JSON/JSON_src/cJSON.c:1463-1494 | In place, a text becomes the bytes of it that are kept, in order, if and only if it is closed; otherwise the run is stopped and flagged where the C code steps over the terminator. Nothing behind the old terminator is written. |
| `MinifyInPlace.StaysInsideExactly` | JSON/JSON_src/cJSON.c:1463-1494 | Followed by its moves alone, the read pointer ends at the terminator without stepping over it if and only if every literal and every block comment of the text is closed. |
| `MinifyInPlace.PointerLeaves` | JSON/JSON_src/cJSON.c:1463-1494 | A lone quote and an open block comment: the pointer ends one and two places behind the terminator. |
| `PowerOfTwo.Pow2gtIsLeast` | JSON/JSON_src/cJSON.c:148-156 | Up to 2^30, or-ing in the shifted words gives the least power of two not below the argument. |
| `PrintBuffer.Buffer.Ensure` | JSON/JSON_src/cJSON.c:164-189 | Room for the request at the offset; a buffer that is too small is replaced by the least power of two that fits, and its bytes are kept either way. |
| `PrintBuffer.Buffer.Update` | JSON/JSON_src/cJSON.c:191-198 | The offset moves behind the string that stands at it. |
| `PrintBuffer.StrLen` | JSON/JSON_src/cJSON.c:191-198 | The length of the C string behind the first bytes of a block. |
| `StringPrinter.ScanForEscapes` | JSON/JSON_src/cJSON.c:401-404 | The flag says exactly whether some byte needs escaping. |
| `StringPrinter.MeasureEscaped` | JSON/JSON_src/cJSON.c:434-442 | The first pass counts exactly the bytes of the escaped form. |
| `StringPrinter.PrintString` | JSON/JSON_src/cJSON.c:395-493 | A fresh block holds the quoted, escaped string and has exactly its length and the terminator. |
| `StringPrinter.PrintStringBuffered` | JSON/JSON_src/cJSON.c:395-493 | The same text behind what the shared buffer already holds. |
| `BufferedPrinter.PrintValue` | JSON/JSON_src/cJSON.c:603-642 | Behind the bytes already in the buffer stands the text of the value, through every reallocation; the offset is left in front of it. |
| `BufferedPrinter.PrintArray` | JSON/JSON_src/cJSON.c:717-767 | The same for arrays of any length and depth. |
| `BufferedPrinter.PrintObject` | JSON/JSON_src/cJSON.c:899-998 | The same for objects of any size and depth. |
| `BufferedPrinter.PrintBuffered` | JSON/JSON_src/cJSON.c:557-563 | For every positive first size the returned block holds the text of the tree. |
| `ComposedPrinter.ArrayMeasure` | JSON/JSON_src/cJSON.c:780-795 | What the first pass of the array printer adds up is the composed text plus one byte for each entry and the length of one separator. |
| `ComposedPrinter.ObjectMeasure` | JSON/JSON_src/cJSON.c:1013-1032 | What the first pass of the object printer adds up is the composed lines plus one byte, the comma the last line does not have. |
| `ComposedPrinter.ComposedItems` | JSON/JSON_src/cJSON.c:811-830 | Composing the printed entries gives the text of the elements. |
| `ComposedPrinter.ComposedMembers` | JSON/JSON_src/cJSON.c:1053-1090 | Composing the printed names and values gives the text of the members. |
| `ComposedPrinter.ComposeArray` | JSON/JSON_src/cJSON.c:811-830 | The second pass stays inside the block and leaves the bracketed text in it. |
| `ComposedPrinter.ComposeObject` | JSON/JSON_src/cJSON.c:1053-1090 | The second pass stays inside the block and leaves the braced text in it. |
| `ComposedPrinter.PrintTree` | JSON/JSON_src/cJSON.c:644-669 | A fresh block holds the text of the value, of exactly the size the length pass computed: no slack for strings, 5 bytes for every non-empty object at any depth. |
| `ComposedPrinter.Print` | JSON/JSON_src/cJSON.c:550-555 | The same for the whole tree in both formats. |
| `EndToEnd.PrintBoth` | JSON/JSON_src/cJSON.c:550-563 | For every tree, every positive first size and both formats the two printers leave the same text. |
| `EndToEnd.PrintAndParse` | JSON/JSON_src/cJSON.c:508-1091 | Printing a tree and parsing the bytes that were written builds a new tree in which a reader finds the same value, and deleting that tree would restore memory. |
| `EndToEnd.PrintAndMinify` | JSON/JSON_src/cJSON.c:1463-1494 | Minifying the block with the formatted print in place leaves the unformatted print in it. |
| `Scanner.SkipLoop` | JSON/JSON_src/cJSON.c:508-513 | The loop drops exactly the leading blanks and control bytes. |
| `Scanner.FirstByteExpression` | JSON/JSON_src/cJSON.c:374 | Or-ing what is left of the scalar with its first-byte mark adds the two, so the byte is the one the model writes. |
| `Scanner.ParseNumberLoop` | JSON/JSON_src/cJSON.c:109-146 | The accumulating loops give the value and the rest of the text that the recursive reading gives. |
| `Scanner.CountLoop` | JSON/JSON_src/cJSON.c:301-305 | The first pass counts what the specification counts. |
| `Scanner.WriteUtf8` | JSON/JSON_src/cJSON.c:350-377 | The fall-through switch writes the scalar's bytes from the last to the first, behind what was written before. |
| `Scanner.UnicodeCase` | JSON/JSON_src/cJSON.c:332-378 | One `\u` escape or pair writes its bytes and moves the pointer as far as the specification says, also when the second half is missing or invalid. |
| `Scanner.DecodeLoop` | JSON/JSON_src/cJSON.c:310-388 | On every literal on which the passes stay together, the second stays inside the memory the first measured, terminator included, and leaves the decoded text and the rest of the input. |
| `Memory.Heap.NewItem` | JSON/JSON_src/cJSON.c:81-87 | A zeroed node at an address where nothing lived; all else unchanged. |
| `Memory.Heap.Delete` | JSON/JSON_src/cJSON.c:90-106 | Deleting a chain removes exactly its nodes and the strings they own from memory. Each free is of something that is there, so nothing is freed twice, and what references point at is left. |
| `Memory.Heap.DeleteNode` | JSON/JSON_src/cJSON.c:93-104 | One node goes with its own children and strings; a reference goes alone. |
| `Memory.ChainFrame` | JSON/JSON_src/cJSON.c:90-106 | A chain stays a chain, with the same strings, in any memory that agrees on its nodes and keeps its strings. |
| `References.CreateReference` | JSON/JSON_src/cJSON.c:1123-1133 | A new node that a reader sees as the item without its name, that owns no string and no child, and no other change to memory. |
| `References.OthersSurvive` | JSON/JSON_src/cJSON.c:90-106 | Deleting one tree leaves any other tree that shares no owned node or string whole, whether or not references to it were in the deleted one; it reads as before if and only if nothing in it names a string of the deleted tree. |
| `References.DeletingRestores` | JSON/JSON_src/cJSON.c:90-106 | Deleting a freshly built tree restores memory exactly when no node of it carries a constant name: a duplicate copies such a name and keeps the flag that says not to free it. |
| `References.DuplicateAndDelete` | JSON/JSON_src/cJSON.c:1412-1461 | Duplicating an item and deleting the duplicate gives memory back if and only if no copied node has a constant name; else the nodes are as before and strings stay behind. |
| `References.ConstantNameStays` | JSON/JSON_src/cJSON.c:1412-1461 | One item with a constant name, duplicated and deleted: a copy of the name stays in memory. |
| `Naming.NamingConserves` | JSON/JSON_src/cJSON.c:1150-1159 | Naming an item leaves every string outside its tree alone, and none that nobody owns behind, if and only if its constant-name flag is clear; with the flag set the new name is never freed, and an old name owned elsewhere is freed. |
| `Naming.NamingSucceedsExactly` | JSON/JSON_src/cJSON.c:1150-1159 | The new name, passed as an address, is copied from live memory and all strings outside the tree are left alone if and only if the flag is clear and the name is not inside the old one, which is freed first. |
| `Naming.ConstNamingConserves` | JSON/JSON_src/cJSON.c:1160-1170 | The variant for constant names always leaves them alone; the name is there afterwards if and only if it is not the one that was freed. |
| `Naming.AddItemToObject` | JSON/JSON_src/cJSON.c:1150-1159 | Flagged as failed exactly when the new name is inside the old one; else the list becomes the old one with the renamed item last, strings that neither list nor item own are as before if and only if the flag was clear, and then the parent owns one well-formed chain. |
| `Naming.AddItemToObjectCS` | JSON/JSON_src/cJSON.c:1160-1170 | The list becomes the old one with the item last under the caller's name, no other string changes, and the parent owns one well-formed chain. |
| `Naming.AddItemReferenceToObject` | JSON/JSON_src/cJSON.c:1174-1176 | The same for a reference: it takes the flag of the item it is made from, so its name is owned if and only if that item's name is not constant. |
| `Naming.NamedReference` | JSON/JSON_src/cJSON.c:1123-1133 | A named reference can be deleted without a trace if and only if the item's name was not constant. |
| `Naming.ConstantNameFreed` | JSON/JSON_src/cJSON.c:1150-1170 | An item added with a constant name, taken out and named again: a string that it never owned is freed. |
| `Duplicate.CopyItem` | JSON/JSON_src/cJSON.c:1418-1437 | A new unlinked node with the same fields and its own copies of both strings; the reference bit is dropped. |
| `Duplicate.AddCopy` | JSON/JSON_src/cJSON.c:1443-1457 | The copy of one child is linked behind the copies made so far, and the values join. |
| `Duplicate.CopyChildren` | JSON/JSON_src/cJSON.c:1442-1459 | The copied children have the value of the children that were read, in order. |
| `Duplicate.Duplicate` | JSON/JSON_src/cJSON.c:1412-1461 | A fresh tree, disjoint from all that was there, well linked, without references, and with kind, value, text, name, flag and children that a reader of the item sees; the old memory is unchanged. Without `recurse` it has no children, and what followed the item never comes along. |
| `Chains.ChainAppend` | JSON/JSON_src/cJSON.c:1118-1121 | Two chains, the second beginning where the first ends, are one. |
| `Chains.ChainHolds` | JSON/JSON_src/cJSON.c:1094-1108 | For a chain without references, what it owns is what a reader finds. |
| `ChildList.Walk` | JSON/JSON_src/cJSON.c:1102-1108 | The walk ends at the item at the index, at the first for a negative index and at NULL past the end or in an empty list. |
| `ChildList.AddItemToArray` | JSON/JSON_src/cJSON.c:1136-1149 | The list becomes the old list followed by the added chain; only links are written. |
| `ChildList.InsertItemInArray` | JSON/JSON_src/cJSON.c:1217-1234 | The new item stands before the item at the index, first for a negative index, last past the end; `next` and `prev` stay inverse. |
| `ChildList.DetachItemFromArray` | JSON/JSON_src/cJSON.c:1178-1197 | The item at the index, the first for a negative index, is taken out and returned unlinked; past the end nothing happens and NULL is returned. |
| `ChildList.ReplaceLinks` | JSON/JSON_src/cJSON.c:1235-1253 | The new item stands in the place of the item at the index, the first for a negative index, which is returned unlinked; past the end nothing happens. |
| `TreeLists.ChildrenAreOwned` | JSON/JSON_src/cJSON.c:1094-1108 | A parent's children form an owned chain exactly when each of them owns what is below it, apart from the others, and their links form the list. |
| `TreeLists.AppendKeepsTree` | JSON/JSON_src/cJSON.c:1136-1149 | After appending, the parent owns its items and then those added, and their values are untouched. |
| `TreeLists.InsertKeepsTree` | JSON/JSON_src/cJSON.c:1217-1234 | After inserting between two parts of the list, the parent owns the first part, the new item and the second part, with untouched values. |
| `TreeLists.DetachKeepsTree` | JSON/JSON_src/cJSON.c:1178-1197 | After detaching, the parent owns the others, the detached item is a tree of its own, the two share nothing, and all values are untouched. |
| `TreeLists.ReplaceKeepsTree` | JSON/JSON_src/cJSON.c:1235-1253 | After relinking, the parent owns the new item in place of the old, which is a tree of its own. |
| `TreeLists.DeleteItemFromArray` | JSON/JSON_src/cJSON.c:1198-1200 | Past the end nothing happens; else the item at the index, or the first for a negative one, goes with exactly the nodes and strings it owns, the parent keeps the others, and they read as before if and only if none of them names a string of it. |
| `TreeLists.ReplaceItemInArray` | JSON/JSON_src/cJSON.c:1235-1255 | Past the end nothing happens; else the item at the index, or the first for a negative one, goes with exactly what it owns, the new one stands in its place, and all that is left reads as before if and only if none of it names a string of the old item. |
| `Building.BuiltJoin` | JSON/JSON_src/cJSON.c:1445-1450 | A tree built behind the last node of a chain that was itself just built: together they are one new chain, and the values join. |
| `Building.BuiltNode` | JSON/JSON_src/cJSON.c:1418-1459 | A new node and the children built under it are one new tree with the value of its parts. |
| `Filling.HangChild` | JSON/JSON_src/cJSON.c:683-702 | A zeroed item is hung from the parent or behind the last child. |
| `Filling.FilledBuilt` | JSON/JSON_src/cJSON.c:683-702 | A new item that was then filled in is a new tree of its own, whether or not filling it in succeeded. |
| `Filling.Grown` | JSON/JSON_src/cJSON.c:683-702 | A child hung and filled in makes the children one more, and the values join. |
| `TreeParser.ParseNumber` | JSON/JSON_src/cJSON.c:109-146 | The node gets the kind and the value that the specification reads. |
| `TreeParser.ParseString` | JSON/JSON_src/cJSON.c:290-392 | New memory of the measured size gets the decoded text; when there is no opening quote nothing changes and the error pointer is the text. |
| `TreeParser.MemberName` | JSON/JSON_src/cJSON.c:852-864 | The text is moved from the value to the name, and the colon is required behind it. |
| `TreeParser.ParseArray` | JSON/JSON_src/cJSON.c:673-714 | The loop builds the children that the recursive reading describes, and stops with the same error pointer; on failure the node still owns all that was allocated. |
| `TreeParser.ParseObject` | JSON/JSON_src/cJSON.c:835-896 | The same for the members of an object and their names. |
| `TreeParser.ParseValue` | JSON/JSON_src/cJSON.c:568-600 | Every value is filled into its node as the recursive reading describes it. |
| `TreeParser.TreeReads` | JSON/JSON_src/cJSON.c:568-896 | A reader of the nodes the parser builds finds the value that was read, and beside it the name: the tree determines the value. |
| `TreeParser.ParseWithOpts` | JSON/JSON_src/cJSON.c:516-543 | Accepted exactly when the recursive reading accepts: a new tree with that value, which could be freed without a trace. Otherwise memory is already back as it was and the error pointer is the place of the failure. |
| `Fifo.Ring.CheckCanWriteNum` | scr_code/veth_serial.c:219 | The free places are the length less the queued bytes. |
| `Fifo.Ring.CheckCanReadNum` | scr_code/veth_serial.c:266 | The number of queued bytes. |
| `Fifo.Ring.Write` | scr_code/veth_serial.c:240-246 | All of the bytes are queued behind the others, or none when they do not fit. |
| `Fifo.Ring.Read` | scr_code/veth_serial.c:400-425 | Exactly the asked number of the oldest bytes is taken in order, or none when fewer are queued. |
| `FifoInterrupt.CellsHold` | scr_code/veth_serial.c:1455-1460 | The fields of the ring hold what the ring holds. |
| `FifoInterrupt.KeepsContentsExactly` | scr_code/veth_serial.c:1455-1497 | A callback between any two statements of a round of the reader's copy loop: the reader gets the oldest byte and what is left stays queued, with the frame if it was accepted, if and only if the callback does not fall between index and flag with a frame that reaches the end of the array while the write index is not 0. |
| `FifoInterrupt.AtomicExactly` | scr_code/veth_serial.c:1455-1497 | It is as if the callback came before or after the round if and only if it does not fall there, or the write index is not 0 and the frame ends before the end of the array. |
| `FifoInterrupt.GapLosesAll` | scr_code/veth_serial.c:1455-1497 | There, a frame that ends just at the end of the array is accepted and the whole queue with it is gone. |
| `FifoInterrupt.GapReached` | scr_code/veth_serial.c:1455-1497 | Accepted frames and a whole read lead to that state. |
| `FifoInterrupt.ReadIsExact` | scr_code/veth_serial.c:1813-1821 | A read with one harmless callback anywhere in its copy loop delivers the oldest bytes in order and leaves the others, with the frame behind them if it was accepted. |
| `SerialEngine.Handle.constructor` | scr_code/veth_serial.c:1962-2010 | The state at power-up. |
| `SerialEngine.Handle.FillinComBuffer1` | scr_code/veth_serial.c:400-425 | A whole block of 800 bytes is read, or nothing. |
| `SerialEngine.Handle.FillinComBuffer2` | scr_code/veth_serial.c:427-460 | Everything that is queued is read. |
| `SerialEngine.Handle.HalUartTransmitDma` | scr_code/veth_serial.c:641-890 | On the real buffers and lengths, the call is the transmit step of the state machine in each of its branches. |
| `SerialEngine.Handle.HalUartTransmitDmaLittle` | scr_code/veth_serial.c:898-999 | The call is the single-shot step of the state machine. |
| `SerialEngine.Handle.UartTransfer` | scr_code/veth_serial.c:196-290 | One poll is the poll step of the state machine; it accepts exactly the bytes of the node when 2920 places are free. |
| `SerialEngine.Handle.UartDmaXferM1CpltCallback` | scr_code/veth_serial.c:1006-1079 | The callback for memory 1 is its step. |
| `SerialEngine.Handle.UartDmaXferCpltCallback` | scr_code/veth_serial.c:1086-1164 | The callback for memory 0 is its step. |
| `SerialEngine.Handle.DmaXferCpltCallback` | scr_code/veth_serial.c:1171-1208 | The callback of a single-shot transfer is its step. |
| `SerialEngine.Handle.CompleteBuffer` | STM32F4xx_HAL_Driver/Src/stm32f4xx_hal_dma.c:763-810 | The end of a buffer, with the flip of CT and the choice of the callback, is the completion step. |
| `SerialModel.FetchQueuesNode` | scr_code/veth_serial.c:219-246 | A node of at most 2920 bytes is queued as it is and counted by its length if and only if as much is free; else nothing changes and the node is not taken. |
| `SerialSafety.StepKeepsInv` | scr_code/veth_serial.c:641-1208 | Every poll, DMA byte, completion and receive-side change keeps the invariant of the engine. |
| `SerialSafety.WireIsExact` | scr_code/veth_serial.c:641-890 | In every run from power-up the nodes handed over, joined in order, are exactly the bytes on the wire, then those in flight, then those queued; counted in equals counted out plus occupancy; bytes fetched equal bytes accepted, and none is rejected. While each node of at most 2920 bytes finds room, that is every node that was offered. |
| `SerialSafety.TransfersExclude` | scr_code/veth_serial.c:898-1208 | In every run a UART is ready exactly when the stream is off, and then both ping-pong lengths are zero; a double-buffer and a single-buffer transfer are never in flight together. |
| `SerialSafety.PollLeavesActiveAlone` | scr_code/veth_serial.c:641-890 | While the stream runs a poll writes neither the stream nor the buffer it reads from, and only adds to what is in flight. |
| `SerialSafety.StartsExactly` | scr_code/veth_serial.c:266-287 | What a poll starts on a stopped engine: a block of the 800 oldest bytes exactly when 800 are queued; the whole queue, as one transfer, exactly when fewer are, a block was finished before and more than 1500 ms went by on the wrapping count; else nothing but the noted time. |
| `SerialSafety.RefillsExactly` | scr_code/veth_serial.c:641-890 | What a poll does to a running stream: the 800 oldest bytes go to the idle buffer exactly when it is empty and so many are queued. |
| `SerialSafety.EngineDrains` | scr_code/veth_serial.c:1006-1208 | Left alone, a running stream puts everything that was taken on the wire, in at most two blocks, and stops. |
| `SerialSafety.PollStarts` | scr_code/veth_serial.c:266-275 | A stopped engine with a whole block queued starts it at the next poll. |
| `SerialSafety.SentExactlyFromFirstBlock` | scr_code/veth_serial.c:278-287 | In every run from power-up something was ever sent if and only if 800 bytes were accepted; until then the wire is empty, however long the polls go on. |
| `SerialSafety.TimeoutSends` | scr_code/veth_serial.c:278-287 | A stopped engine with a short queue and the timeout gone by: if a block was finished before, the whole queue goes into one single-buffer transfer, else only the time is noted. |
| `SerialSafety.ShortQueueSent` | scr_code/veth_serial.c:278-287 | In every run that left a stopped engine with a short queue, two polls with the timeout between them send the queue, to the last byte, if and only if a whole block was ever accepted. |
| `SerialGap.GapRunsAreExact` | scr_code/veth_serial.c:196-290 | With the transmit poll split between test and action, on both of its paths: in every run from power-up with one completion in each gap, or two when the test saw CT set, and no timeout while a block waits, the nodes handed over are the wire, then what is in flight, then the queue: no byte is lost, repeated or overtaken. |
| `SerialGap.RestartSendsPending` | scr_code/veth_serial.c:682-694 | A block filled after the engine stopped is what the next restart sends, before any new byte. |
| `SerialGap.RestartSendsQueue` | scr_code/veth_serial.c:682-694 | Without such a block the restart sends the head of the queue. |
| `SerialGap.OneCompletionIsTheLimit` | scr_code/veth_serial.c:759-790 | For every running double-buffer transfer, any number of completions in the gap and any bytes that arrive later: a stream that still runs sends in order; a stopped engine with an empty queue starts nothing; else the next transfer, by either path, sends in order if and only if a whole block is queued for it and at most one block completed in between, or the test saw CT set, or the two blocks are the same bytes. |
| `SerialGap.SecondCompletionReorders` | scr_code/veth_serial.c:759-790 | With CT clear and two completions in the gap, of the two blocks taken in order the later one is sent first. |
| `SerialGap.SecondCompletionReached` | scr_code/veth_serial.c:759-790 | A run from power-up reaches CT clear, both memories full and a block queued; two completions in the next gap then lose the order. |
| `SerialGap.LittleInOrder` | scr_code/veth_serial.c:898-914 | The single-shot poll of any stopped engine takes the whole queue, and sends in order if and only if everything taken before is on the wire. |
| `SerialGap.LittleKeepsOrderExactly` | scr_code/veth_serial.c:898-914 | In these runs: if and only if no block waits in memory. |
| `SerialGap.LittleBlockReached` | scr_code/veth_serial.c:898-914 | A run from power-up with one completion in a gap leaves a block waiting over a short queue, and the two polls that follow send the younger bytes first. |
| `Receiver.Handle.UartDmaRcvCpltCallback` | scr_code/veth_serial.c:1442-1500 | The callback on real buffers is its step in all four branches: the frame is queued when more than its length is free and counted as rejected otherwise. |
| `Receiver.Handle.GetUartRecievedData` | scr_code/veth_serial.c:1791-1821 | The client poll: the smaller of 2000 and the number of queued bytes is returned, that many of the oldest bytes go to the client, in order, and the others stay queued. |
| `Receiver.Handle.BlockFull` | scr_code/veth_serial.c:1454-1473 | A full buffer turns the stream to the other one and hands over the one it left. |
| `Receiver.Handle.IdleStop` | scr_code/veth_serial.c:1290-1306 | After an idle line the stream is stopped and what the current buffer holds is handed over. |
| `ReceiverModel.CallbackOffers` | scr_code/veth_serial.c:1442-1500 | A full buffer or an idle line offers the bytes of the current buffer: queued behind the others when more than their length is free, else kept out and counted; lengths, counters, DMA count and CT move as the code says. |
| `ReceiverModel.ReceivedIsAccounted` | scr_code/veth_serial.c:1442-1500 | In every run of stored bytes, full buffers, idle lines and client polls: the bytes that came in, taken from the events, are the offered frames, in order, and what the current buffer holds; the queued frames are, in order, what was delivered and what is queued; every other byte is in a counted rejected frame. |
| `ReceiverModel.PacedLosesNothing` | scr_code/veth_serial.c:1791-1821 | With at most 25 frames between two client polls no byte is lost, whatever the line does. |
| `ReceiverModel.PollsDrain` | scr_code/veth_serial.c:1791-1821 | With nothing coming in, n client polls deliver the first 2000 n queued bytes in order, or all of them. |
| `ReceiverModel.SteadyRate` | scr_code/veth_serial.c:1791-1821 | When k whole blocks come in for each client poll, over any number of rounds, no frame is ever rejected if and only if k is at most 25. |
| `NorDisk.Device.WriteData` | scr_code/veth_nor.c:275-296 | Each halfword is and-ed into its cell, no other cell changes, and the cells that were not erased are counted. |
| `NorDisk.Device.ReadData` | scr_code/veth_nor.c:382-392 | The bytes read are the bytes of the device, low half first. |
| `NorDisk.Device.HalvesOf` | scr_code/veth_nor.c:382-392 | The byte at an even address is the low half of its cell, the next one the high half. |
| `NorDisk.Device.EraseBlock` | scr_code/veth_nor.c:326-340 | The cells of the block become erased and no other byte changes. |
| `NorDisk.Device.NorRead` | scr_code/veth_nor_diskio.c:330-339 | Any sectors of the device, across erase blocks, are read as they are. |
| `NorDisk.Device.LoadBlock` | scr_code/veth_nor_diskio.c:363-366 | The temporary block holds the erase block, row by row. |
| `NorDisk.Device.Overlay` | scr_code/veth_nor_diskio.c:381-392 | The rows of the request are replaced, the others kept. |
| `NorDisk.Device.StoreBlock` | scr_code/veth_nor_diskio.c:393-396 | The temporary block is programmed into erased cells without a second programming of any. |
| `NorDisk.Device.NorWrite` | scr_code/veth_nor_diskio.c:350-404 | For every request, a byte of the device is the byte of the request for its address when that lies in the request and in the first erase block, and is as before otherwise; every halfword programmed was erased first. |
| `NorArray.SectorsHoldLatest` | scr_code/veth_nor_diskio.c:350-404 | Over any run whose writes each stay inside one erase block, every sector holds what was last written to it, or what it held at first. |
| `NorArray.ReadsGiveLatest` | scr_code/veth_nor_diskio.c:330-339 | A read of several sectors gives for each the data last written to it. |
| `NorArray.WritesAllExactlyInBlock` | scr_code/veth_nor_diskio.c:359-396 | A write puts down all of its data, whatever the data, exactly when it stays inside one erase block. |
| `NorArray.LosesTheRest` | scr_code/veth_nor_diskio.c:381-396 | Every byte past the first erase block keeps its old value, so a request is written as asked if and only if the rest of its data is there already. |
| `TrunkDriver.Switch.constructor` | scr_code/veth_marvell_6097f.c:24-25 | All ports free, every mask full. |
| `TrunkDriver.Switch.SetTrunkPort` | scr_code/veth_marvell_6097f.c:1243-1280 | The loop over the shifted vector is the claiming operation, including its refusal. On success the register of each port named carries bit and id and keeps bits 12, 13 and 15; every other register is as before. |
| `TrunkDriver.Switch.MemberMasks` | scr_code/veth_marvell_6097f.c:1290-1304 | One word for each member in port order, in eight places; a store past them happens if and only if there are more than 8 members. |
| `TrunkDriver.Switch.SetTrunkTable` | scr_code/veth_marvell_6097f.c:1283-1312 | The loop with the wrapping index is the dealing operation: entry i of the 8 keeps the member whose rank is i modulo the number of members, loses the other members, and holds all other ports as before. |
| `TrunkDriver.Switch.CheckMembers` | scr_code/veth_marvell_6097f.c:1361-1377 | The first reason to refuse, in port order. |
| `TrunkDriver.Switch.ClearATrunk` | scr_code/veth_marvell_6097f.c:1347-1397 | The call is the clearing operation, including each of its errors. On success the register of each port named loses trunk bit and id and keeps its other bits; every other register is as before. |
| `TrunkModel.JoinedReads` | scr_code/veth_marvell_6097f.c:1264-1268 | A register that joined a trunk carries the trunk bit and the id, keeps bits 12, 13 and 15 and has no bit from 0 to 7. |
| `TrunkModel.LeftReads` | scr_code/veth_marvell_6097f.c:1386-1389 | A register that left carries neither trunk bit nor id, and every other bit is as it was. |
| `TrunkModel.SetTableDeals` | scr_code/veth_marvell_6097f.c:1290-1312 | The members, in port order, take the 8 entries in turn. |
| `TrunkModel.Refusal` | scr_code/veth_marvell_6097f.c:1361-1377 | No refusal exactly when every port named carries the trunk bit and the id. |
| `TrunkModel.RefusalIsFirst` | scr_code/veth_marvell_6097f.c:1361-1377 | The error is that of the first port in the way: which one it is says its register, and all ports named before are members with the id. |
| `TrunkModel.ClearErrors` | scr_code/veth_marvell_6097f.c:1347-1377 | A clear that names a free port answers that the trunk does not exist; any other error is that of a first port in the way; with an error nothing changes. |
| `TrunkSafety.CreateSucceeds` | scr_code/veth_marvell_6097f.c:1252-1305 | Creation succeeds exactly when all ports are free ports of the switch and at most 8; when one is not free nothing changes; when there are more than 8 the ports stay claimed although no mask was written. |
| `TrunkSafety.CreateKeeps` | scr_code/veth_marvell_6097f.c:1252-1312 | After a creation the new trunk owns its ports and all tables agree again. |
| `TrunkSafety.ClearSucceeds` | scr_code/veth_marvell_6097f.c:1356-1377 | A clear succeeds exactly when the ports of the switch it names are all members with its id; otherwise an error and no change. |
| `TrunkSafety.ClearKeeps` | scr_code/veth_marvell_6097f.c:1376-1397 | Clearing whole trunks frees their ports and all tables agree again. |
| `TrunkSafety.Starved` | scr_code/veth_marvell_6097f.c:1393-1397 | Taking a port out of its trunk leaves its hash entry with no port of that trunk. |
| `TrunkSafety.ClearKeepsExactly` | scr_code/veth_marvell_6097f.c:1347-1411 | After a successful clear the tables agree about what is left of each trunk if and only if the vector named whole trunks and ports of the switch only. |
| `TrunkSafety.ExactIsConsistent` | scr_code/veth_marvell_6097f.c:24-25 | What runs keep implies the promise: free vector the complement of all members, trunk bit and id exactly for members, free ports in every mask, one member of each trunk in each mask. |
| `TrunkRuns.InitialExact` | scr_code/veth_marvell_6097f.c:24-25 | It holds at power-up. |
| `TrunkRuns.RunKeeps` | scr_code/veth_marvell_6097f.c:1243-1411 | It holds over every run of creations of 1 to 8 ports with an id below 16 and of clears of whole trunks; no port is ever in two trunks. |
| `TrunkRuns.RegistersKeep` | scr_code/veth_marvell_6097f.c:1243-1411 | Over every run, refused calls included, bits 12, 13 and 15 of every port register stay as they were, and a port that no call names keeps its whole register. |
| `TrunkRuns.Determined` | scr_code/veth_marvell_6097f.c:1295-1312 | Who owns which port determines the free vector and every mask to the bit, whatever history led there. |
| `TrunkRuns.ClearRestores` | scr_code/veth_marvell_6097f.c:1376-1397 | Whatever calls came between, clearing a trunk restores the free vector and the masks from before its creation, when the other trunks are what they were. |
| `TrunkRuns.CreateThenClear` | scr_code/veth_marvell_6097f.c:1347-1411 | A clear right after a creation succeeds and undoes it. |
| `TrunkRuns.Fair` | scr_code/veth_marvell_6097f.c:1307-1312 | Each member of a trunk of k ports gets 8/k of the 8 entries, rounded down or up. |
| `TrunkRuns.PartialClearReached` | scr_code/veth_marvell_6097f.c:1347-1411 | From power-up: a trunk of two ports, cleared by one of them; the call succeeds and the tables disagree about the other. |
| `TrunkRuns.NineStayClaimed` | scr_code/veth_marvell_6097f.c:1252-1305 | From power-up: nine free ports are refused and yet no longer free, and a second request for some of them finds them taken. |
| `LinkPoller.Poller.constructor` | scr_code/veth_RSTP.c:253-265 | The enabled ports are the links sampled at creation. |
| `LinkPoller.Poller.Sample` | scr_code/veth_RSTP.c:291-302 | The port bits of the unset word become the samples, whatever the other bits hold. |
| `LinkPoller.Poller.Notify` | scr_code/veth_RSTP.c:307-322 | One notification for each port that changed, in port order, and its bit follows. |
| `LinkPoller.ChangesExactly` | scr_code/veth_RSTP.c:304-322 | The notices of a poll are, in rising port order, one for each port whose link differs, with the new link, and none for any other. |
| `LinkPoller.Poller.TimerExpiredOneSecond` | scr_code/veth_RSTP.c:281-334 | After every poll the enabled ports are the samples, the new notices stand behind the old ones, one for each changed port in rising order with its new link, and the tick is set exactly when the second count moved. |
| `LinkHistory.OneNoticePerChange` | scr_code/veth_RSTP.c:304-322 | Over every history each port is notified exactly once for each of its changes, with the new state. |
| `LinkHistory.NoticesAlternate` | scr_code/veth_RSTP.c:304-322 | The notifications of a port strictly alternate, and the last one is its present state. |
| `LinkHistory.TicksAtMostSeconds` | scr_code/veth_RSTP.c:325-331 | Ticks never outnumber the seconds that went by, also across a wrap of the 32-bit count. |

## Left out

- TreeParser.ParseString: asks for literals on which the two passes stay together. On the others, which `JsonString.PassesAgreeExactly` tells apart, the second pass stops at another quote than the first or leaves the text, and the recursive reading calls them undefined; its callers ask for the same.
- Scanner.DecodeLoop: asks for the same.
- Allocation failure and its clean-up paths.
- Printing of numbers that are not 32-bit integers, and `valueint`, which repeats the value.
- PrintBuffer.Buffer.Ensure: asks for totals of at most 2^30, above which `pow2gt` overflows.
- BufferedPrinter.PrintBuffered: asks for a text within that limit, because `Ensure` does.
- Scanner.ParseNumberLoop: the exponent is unbounded and the arithmetic exact, where the C code has `int` and `double`.
- MinifyInPlace.MinifyText: stops where the C loops step over the terminator; what they then read and write is not modelled.
- The printers read the value of a tree; that reading it off the nodes gives the same value is `Chains.ChainHolds`. The `if (!str)` branch of the string printer cannot be reached for a string node.
- The other `cJSON_Add...` and `Create...` functions, which put these together, and the case-insensitive lookup by name.
- Naming.AddItemToObject: the copy of the new name never takes the address of the name just freed; with the new name inside the old one it stops where the C code reads freed memory.
- TreeLists.DeleteItemFromArray: of a kept tree that names a string of the deleted item it says only that it no longer reads as before.
- The allocator: a new address is one above all that are in use, and contracts promise only that nothing lives there.
- A sub-tree that refers to one of its own ancestors: a reader of such a tree does not end, so duplicates are of trees whose value is finite.
- `JSONUtility.c`: the configuration sections on top of the library.
- Fifo.Ring.Read: here each call is one step; `FifoInterrupt` opens the copy loop of the reader to one callback. A callback between the flag and the indices when the reader counts, which can only make the count too large for one of its two tests, and a second callback in the same read are not modelled.
- SerialEngine.Handle.HalUartTransmitDmaLittle: asks that the queued bytes fit the single-shot buffer, which the poll ensures by calling it below one block.
- Receiver.Handle.IdleStop: when the poll marks the last frame while a full buffer is just being handed over, the frame is taken for an idle one; each poll and each callback is one step here. That the receive poll returns early while the length of a rejected frame stays set is not modelled.
- Register writes of the DMA and the UART beyond enable, double-buffer mode, CT, length and state; the counters for debugging; unbounded counters where the code has 32 bits.
- Status codes of the NOR driver: every program, erase and read succeeds.
- NorDisk.Device.NorWrite: for a request that crosses an erase block it states what the code does, which is to write only the part inside the first.
- TrunkDriver.Switch.SetTrunkTable: asks for at least one member, because with none the code reads a word it never stored. What the store of a ninth member overwrites is not modelled.
- The commands that load the hash masks into the chip, and its register of trunk members, whose clear path drops the id.
- `Clear_ALL_trunks`, which reads the free vector with the opposite sense and shifts it to zero.
- The RSTP protocol itself: its sources are not part of this model.
- LinkPoller.Poller.TimerExpiredOneSecond: the boolean result is the tick or the flag for received packets; who reads it is not modelled.
- VLAN setup, PoE, CLI, flash configuration, web server and the byte swaps of `veth_ntoh.c`.
