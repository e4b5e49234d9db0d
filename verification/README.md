# Verification of cJSON, the Chinese chess engine and four smaller programs

A Dafny 4.11 model of the parts of the repository whose correctness is hard to see by reading, and
proofs about them. Verify with `dafny verify dfyconfig.toml`.

## What is modelled

**cJSON** (`tcp/cJSON.c`). A JSON tree is a datatype whose children form a cons list, as the
`next` pointers do. `JsonTree` gives the text of a tree, `JsonGrammar` the parser as a function on
a byte buffer and an offset. `JsonParser` and `JsonStrings` are the imperative parser: a class with
`offset` and `depth`, the loops of the C code, and a string decoder that writes into a buffer of
exactly the size the first pass computes. `JsonPrinter` is the in-place printer: a growing byte
array, `ensure`, `update_offset` with its `strlen`, the `noalloc` mode, and allocation that may
fail at any call. `JsonSyntax` writes the language down by itself, as syntax trees with a spelling
and a meaning: the texts the program takes (any bytes up to 32 as white space, raw bytes in
strings, lenient numbers), and among them those of RFC 8259. It proves both directions: a buffer
parses to a value exactly when it reads as such a text that means the value (`ParsesIff`), and
every text of the RFC is one of them (`DocumentRead`). `JsonRoundTrip` follows: a printed text is
one spelling of a syntax tree that means the tree, so parsing gives the tree back exactly when it
is at most 1000 levels deep. `JsonLayout` says where the white space, the escapes and the digits of
a printed text stand. What `sprintf` writes for a number that is no 32-bit integer is a
parameter of the printer (`Printf`): any two numbers of the grammar of at most 25 bytes, one for
each precision; the program's own choice between them is modelled. `JsonNumber` holds decimal
numbers and the reading of them. `JsonMinify` is the in-place minifier, `JsonComments` says what it
leaves of any text, comments included, and `JsonMinifyPrinted` proves exactly for which trees it
undoes formatting. `JsonList`,
`JsonDuplicate` and `JsonCompare` are the heap: doubly linked child lists whose head's `prev` is
the last item, deep copies, comparison; `JsonSame` says when two trees compare equal without the
walk over them.

**Chinese chess** (`chess AI/`). `XiangqiRules` holds the movement rules and the program's notion
of check, `XiangqiScan` the board scans and the move generator over one array of 90 squares,
`XiangqiSearch` the evaluation, fail-soft alpha-beta on a board that is changed and restored, and
the root search whose threads finish in any order. `XiangqiSquares` tells the rules of every piece
and of check in squares and sets of squares, and `XiangqiWorth` the evaluation in numbers of
pieces; the program's tests and sums are proved to be these. `XiangqiForce` says what the values of
the search mean in play. `XiangqiPositions` proves what holds in every
position of every run, `XiangqiMirror` that rules, evaluation and search treat the two sides
alike; `XiangqiGame` is the game object, and `XiangqiBoards` draws the initial board and holds
concrete positions in which the program goes wrong.

**Thread pool** (`tcp/ssl/server.c`). `ClientQueue` is the ring buffer; `QueueProtocol` is a
transition system of one accepting thread and any number of workers with one mutex and one
condition variable, with spurious wake-ups and signals that may reach any sleeper. Its theorems
hold for every capacity and every number of workers: the two bounds on the number of workers are
shown to be exact, and a waiting client is taken within a bounded number of steps.

**Packet framing** (`tcp/ssl/client.c`, `tcp/ssl/server.c`), **steel cutting** (`catthep1/`),
**threaded matrix products** (`matrix/matrix.c`, `pthread/multithread_example.c`) and **base64**
(`tcp/mahoa.c`, `tcp/giaima.c`) each have a module or a few; `SteelRules` and `Base64Digits` say
what is saved and preferred, and what is written and read, by counting and in digits.

## Where the code differs from what it says

- Duplicate keys: an object with a repeated key is unequal to its own copy, because comparison
  looks up the first match (`JsonCompare.RepeatedKeyDiffers`). `CompareWithDuplicate` gives the
  exact condition.
- `cJSON_Minify` takes the last backslash of an escaped backslash before a quote as escaping the
  quote, so a string that ends in a backslash swallows what follows it
  (`JsonMinifyPrinted.BackslashDefeatsMinify`); the exact condition is in `MinifyUndoesFormatting`.
- `isKingInCheck` tests pawns with the rule of the wrong side: a pawn about to take the king is
  not check (`XiangqiBoards.PawnUnnoticed`), a pawn right behind it is (`XiangqiBoards.PawnFeared`).
  `XiangqiPositions.CheckAgreesIff` gives the exact condition.
- `initializeGame` says that Red moves first and gives Black the first move; the model follows the
  code.
- The machine takes the null move for having no valid move, and resigns or calls a draw. It gets
  the null move exactly when every valid move leads to a mate within its depth, so it calls a draw
  in positions where it is not in check and can move (`XiangqiBoards.DrawWithAMove`); the exact
  condition, by the rules alone, is in `XiangqiGame.NullMoveInPlay`.
- A byte order mark is skipped only with at least two bytes behind it, so a marked one-digit text
  without terminator is refused; and a surrogate that is not half of a pair is refused, though the
  grammar allows it (`JsonSyntax.DocumentRead`).
- The parser takes texts that are no JSON: any control byte as white space or inside a string, raw
  bytes that are no UTF-8, leading zeros, a number that ends in its point or starts with a minus
  and a point. Exactly which texts it takes is `JsonSyntax.ParsesIff`.
- `send_packet` compares the result of `send` with its length cast to int: from 2^31 bytes on it
  reports failure whatever it sent, and with 2^32 - 1 bytes an error counts as success
  (`PacketFraming.Wire.SendPacket`).
- The base64 decoder returns one zero byte too many when the data has a length of 2 modulo 3
  (`Base64.RoundTripIff`).
- With no rows, `multiplyMatricesOptimized_Parallel` divides by zero; the model asks for one row.

## Model

| member | source | states |
|---|---|---|
| JsonSyntax.ParsesIff | tcp/cJSON.c:1142-1219 | On every buffer: a value and a parse end come back if and only if the buffer reads, up to that end, as some text of the language (mark, white space, one value, and with a required terminator only white space before it) with all surrogates paired and at most 1000 levels, that means this value |
| JsonSyntax.ParsesReads | tcp/cJSON.c:1142-1219 | Whatever is parsed is spelled by a syntax tree of the language, found from the bytes read |
| JsonSyntax.ValueSpelled | tcp/cJSON.c:1363-1415 | A value that is parsed stands in the buffer as the spelling of a syntax tree, up to its end |
| JsonSyntax.ItemsSpelled | tcp/cJSON.c:1525-1565 | The same for elements: values with commas between them and a closing bracket behind the last |
| JsonSyntax.MembersSpelled | tcp/cJSON.c:1682-1745 | The same for members: keys, colons, values, commas and the closing brace |
| JsonSyntax.StringSpelled | tcp/cJSON.c:819-946 | The same for a string: its first unescaped quote ends it, and its escapes are those of the language |
| JsonNumber.NumberSpelled | tcp/cJSON.c:307-407 | What is converted is a number of the lenient form, taken as far as it goes |
| JsonSyntax.DocumentRead | tcp/cJSON.c:1142-1219 | For every text of RFC 8259, with or without byte order mark, white space around it and terminator: the parse succeeds exactly when all surrogates are paired, it nests at most 1000 levels, a required terminator is there and two bytes follow the mark; the result is the tree the text means and the reported end is right |
| JsonSyntax.ValueRead | tcp/cJSON.c:1363-1415 | Wherever a value of the language stands in a buffer, the parser returns its meaning and stops right behind it, or refuses it exactly for a lone surrogate or for depth |
| JsonSyntax.ArrayRead | tcp/cJSON.c:1492-1587 | The same for an array, empty or not, white space anywhere, with the depth counter |
| JsonSyntax.ItemsRead | tcp/cJSON.c:1525-1560 | The same for the elements: all of them, in order |
| JsonSyntax.ObjectRead | tcp/cJSON.c:1652-1767 | The same for an object |
| JsonSyntax.MembersRead | tcp/cJSON.c:1682-1740 | The same for the members: keys, values and order |
| JsonSyntax.NameRead | tcp/cJSON.c:1707-1733 | A key with white space around it and its colon |
| JsonSyntax.StringRead | tcp/cJSON.c:819-946 | A string of the language, any escape and any raw byte included, parses to the bytes it means up to the first NUL, exactly when its surrogates are paired |
| JsonSyntax.QuoteFound | tcp/cJSON.c:832-854 | The first pass stops at the quote that ends the string and at no escaped one |
| JsonSyntax.UnescapeReads | tcp/cJSON.c:865-923 | The second pass gives the UTF-8 bytes of the characters, or fails exactly on a lone surrogate |
| JsonSyntax.PairStep | tcp/cJSON.c:698-759 | A high and a low surrogate are read as one code point beyond 16 bits |
| JsonSyntax.LoneStep | tcp/cJSON.c:721-745 | A high surrogate before anything but a low one is refused |
| JsonNumber.NumberRead | tcp/cJSON.c:307-407 | Every number of the lenient form, those of RFC 8259 included, converts to its value and is used whole |
| JsonRoundTrip.DocumentRoundTrip | tcp/cJSON.c:1142-1219 | For every tree: parsing its printed text, NUL included, succeeds exactly when it nests at most 1000 levels, formatted or not, with or without the terminator being required, and gives the tree with its numbers as printed; these are the same tree if all numbers are 32-bit integers, and compare equal by `compare_double` exactly when 15 or 17 digits are enough for each |
| JsonRoundTrip.ValueRoundTrip | tcp/cJSON.c:1363-1489 | Wherever a value's printed text stands in a buffer, the parser returns that value, numbers as printed, and stops right behind the text, or refuses it for depth alone |
| JsonRoundTrip.StringRoundTrip | tcp/cJSON.c:819-1068 | A printed string parses to the same bytes, for every string without NUL |
| JsonRoundTrip.Spelling | tcp/cJSON.c:1418-1489 | The text printed for a tree, in either layout, is the spelling of a syntax tree of the grammar |
| JsonRoundTrip.ItemsSpelling | tcp/cJSON.c:1590-1649 | The same for elements and their separators |
| JsonRoundTrip.MembersSpelling | tcp/cJSON.c:1770-1881 | The same for members, tabs and line ends |
| JsonRoundTrip.Meanings | tcp/cJSON.c:1418-1489 | That syntax tree means the printed tree with its numbers as printed, and has no lone surrogate |
| JsonRoundTrip.ReadsBack | tcp/cJSON.c:591-658 | Reading numbers back from their texts changes no tree of 32-bit integers and no shape, and gives numbers that compare equal exactly when the digits printed are enough |
| JsonRoundTrip.StringMeaning | tcp/cJSON.c:1019-1063 | The escapes written for a string mean its bytes |
| JsonRoundTrip.RealSpelling | tcp/cJSON.c:591-658 | The text of a number is a number of the grammar, and for a 32-bit integer its value is that integer |
| JsonTree.IntegersAreTheInt32s | tcp/cJSON.c:386-400 | A number equals its saturated integer value exactly when it is an integer of 32 bits |
| JsonTree.EscapeConcat | tcp/cJSON.c:1019-1063 | Escaping works byte by byte: the escape of a concatenation is the concatenation of the escapes |
| JsonLayout.EscapesAre | tcp/cJSON.c:1019-1063 | Quote, backslash and five control bytes are escaped by one letter, other control bytes by four lower-case digits, and nothing else is escaped |
| JsonLayout.NumberTextIs | tcp/cJSON.c:591-658 | A number that is no 32-bit integer is printed with fifteen digits if they are within 1 part in 2^52 of it, and with seventeen if not |
| JsonLayout.Decimals | tcp/cJSON.c:307-407 | The values of three texts with fraction, sign and exponent |
| JsonLayout.ObjectLayout | tcp/cJSON.c:1770-1881 | A formatted object opens a line, and its closing brace stands on a line of its own behind as many tabs as the object is deep |
| JsonLayout.MemberLayout | tcp/cJSON.c:1794-1860 | A formatted member stands on one line: tabs for its depth, name, colon and tab, value, a comma if another follows, line feed |
| JsonLayout.ItemLayout | tcp/cJSON.c:1613-1640 | Formatted elements stand on one line, with a comma and a blank between two |
| JsonGrammar.SkipSpace | tcp/cJSON.c:1085-1108 | Skipping white space never ends before it began, in spite of the step back, and at the end of the buffer only if it began there |
| JsonGrammar.ParseValue | tcp/cJSON.c:1363-1415 | Every successful parse advances the offset and stays within the buffer, on every buffer |
| JsonGrammar.ParseString | tcp/cJSON.c:819-946 | A parsed string lies within the buffer, its closing quote included |
| JsonGrammar.ParseDocument | tcp/cJSON.c:1142-1219 | A successful document parse ends within the buffer |
| JsonGrammar.AcceptedDepth | tcp/cJSON.c:1363-1415 | Every accepted value nests at most 1000 levels below the start, counted from the current depth |
| JsonGrammar.AcceptedItemsDepth | tcp/cJSON.c:1492-1587 | The same for the elements of an array |
| JsonGrammar.AcceptedMembersDepth | tcp/cJSON.c:1652-1767 | The same for the members of an object |
| JsonGrammar.Utf8Decodes | tcp/cJSON.c:761-811 | The UTF-8 bytes written for a code point decode to it by section 3 of RFC 3629 |
| JsonGrammar.Utf16Literal | tcp/cJSON.c:698-816 | A decoded escape uses 6 or 12 input bytes within the string and gives a code point below 0x110000 |
| JsonStrings.UnescapeFits | tcp/cJSON.c:819-946 | The second pass never writes more than the first pass allocated, for every input, malformed escapes included |
| JsonStrings.StepSavesEnough | tcp/cJSON.c:865-923 | Each step of the second pass reads at least as many bytes beyond its output as the first pass counted there |
| JsonStrings.EscapesPastQuote | tcp/cJSON.c:832-854 | Bytes behind the closing quote take no part in the count of skipped bytes |
| JsonStrings.ParseHex4 | tcp/cJSON.c:661-694 | The loop returns the value of four hex digits, or 0 if one of them is none |
| JsonStrings.DecodeUtf16 | tcp/cJSON.c:698-759 | The code point and the input length of an escape or surrogate pair, 0 length for a malformed one |
| JsonStrings.WriteUtf8 | tcp/cJSON.c:761-811 | The bytes stored, from the last to the first, are the UTF-8 form of the code point |
| JsonStrings.FindClosingQuote | tcp/cJSON.c:832-854 | The loop finds the closing quote of the grammar and counts the escapes before it |
| JsonStrings.UnescapeInto | tcp/cJSON.c:865-923 | The loop writes the unescaped string and a NUL within the allocated buffer and stops at the closing quote or right behind it |
| JsonStrings.DecodeString | tcp/cJSON.c:819-946 | Both passes together compute what the grammar says a string token is |
| JsonParser.ParseBuffer.SkipWhitespace | tcp/cJSON.c:1085-1108 | The loop leaves the offset where the grammar says white space ends |
| JsonParser.ParseBuffer.ParseNumber | tcp/cJSON.c:307-407 | Number parsing on the buffer follows the grammar |
| JsonParser.ParseBuffer.ParseValue | tcp/cJSON.c:1363-1415 | The imperative parser succeeds, returns and advances exactly as the grammar; depth is restored on success |
| JsonParser.ParseBuffer.ParseArray | tcp/cJSON.c:1492-1587 | The array loop with its depth counter follows the grammar |
| JsonParser.ParseBuffer.ParseObject | tcp/cJSON.c:1652-1767 | The object loop with its depth counter follows the grammar |
| JsonParser.Parse | tcp/cJSON.c:1142-1219 | The whole parse, byte order mark and required terminator included, is the grammar's document |
| JsonPrinter.PrintBuffer.Ensure | tcp/cJSON.c:485-568 | On success there is room for the bytes asked for and the text so far is kept across regrowth; a fixed buffer is never replaced and succeeds exactly when it has the room |
| JsonPrinter.PrintBuffer.UpdateOffset | tcp/cJSON.c:571-581 | The offset moves to the terminator of what was just written |
| JsonPrinter.PrintBuffer.PrintNumber | tcp/cJSON.c:591-658 | A 32-bit integer is appended as its decimal text, any other number with 15 digits if they read back as an equal number and with 17 if not, and NUL follows |
| JsonPrinter.PrintBuffer.CountEscapes | tcp/cJSON.c:976-1000 | The first pass counts exactly the bytes escaping adds |
| JsonPrinter.PrintBuffer.WriteEscapedString | tcp/cJSON.c:1019-1063 | The second pass writes exactly the escaped string and nothing else in the buffer changes |
| JsonPrinter.PrintBuffer.PrintString | tcp/cJSON.c:949-1078 | A string is appended quoted and escaped, within the space ensured; a fixed buffer with a byte to spare behind text and terminator always takes it |
| JsonPrinter.PrintBuffer.PrintValue | tcp/cJSON.c:1418-1489 | After a successful print and offset update the buffer holds the old text, the text of the value and a NUL, across any regrowths and within its length |
| JsonPrinter.PrintBuffer.PrintArray | tcp/cJSON.c:1590-1649 | The same for an array |
| JsonPrinter.PrintBuffer.PrintObject | tcp/cJSON.c:1770-1881 | The same for an object, indentation included |
| JsonPrinter.Print | tcp/cJSON.c:1234-1299 | The result is a new block of exactly the text and its terminator |
| JsonPrinter.PrintBuffered | tcp/cJSON.c:1312-1341 | The same text, starting from a buffer of any size; none for a negative size |
| JsonPrinter.PrintPreallocated | tcp/cJSON.c:1343-1360 | The text is in the caller's block, which is never outgrown or replaced; with at most INT_MAX bytes printing succeeds exactly when the block has one byte more than text and terminator |
| JsonPrinter.NothingEscaped | tcp/cJSON.c:1008-1017 | The short cut without escapes writes the same text |
| JsonPrinter.NoEarlyTerminator | tcp/cJSON.c:571-581 | The terminator found from the old offset is the one behind the new text |
| JsonMinify.Minify | tcp/cJSON.c:2909-2955 | In-place minification ends with the minified text and a NUL at the front of the buffer; the write position never passes the read position |
| JsonMinify.MinifyString | tcp/cJSON.c:2887-2907 | A string is copied up to the quote the program takes for its end |
| JsonMinify.SkipLine | tcp/cJSON.c:2860-2871 | A line comment is skipped with its line end |
| JsonMinify.SkipBlock | tcp/cJSON.c:2873-2885 | A block comment is skipped with its end mark, or to the end of the text |
| JsonMinify.Minified | tcp/cJSON.c:2909-2955 | The minified text is never longer than the text |
| JsonComments.MinifiedIff | tcp/cJSON.c:2860-2955 | For every text: however it is cut into white space, comments, strings, single slashes, other bytes and an unclosed end, what is left is exactly its strings and other bytes; and every text can be so cut |
| JsonComments.LineCommentGone | tcp/cJSON.c:2860-2871 | A line comment behind any text that ends outside strings and comments is as if it were not there, and an unclosed one takes the rest |
| JsonComments.BlockCommentGone | tcp/cJSON.c:2873-2885 | The same for a block comment, up to its first end mark |
| JsonComments.MinifyTwice | tcp/cJSON.c:2909-2955 | Minifying twice is minifying once |
| JsonMinifyPrinted.MinifyUndoesFormatting | tcp/cJSON.c:2909-2955 | Minifying the formatted text of a tree gives its unformatted text exactly when no string or key in it ends in a backslash, save a string with only closing brackets behind it |
| JsonMinifyPrinted.BackslashDefeatsMinify | tcp/cJSON.c:2887-2907 | A two-element array whose first string is one backslash, for which it does not |
| JsonMinifyPrinted.ValueMinified | tcp/cJSON.c:1418-1489 | The same for a value inside a text, whatever follows it |
| JsonMinifyPrinted.ItemsMinified | tcp/cJSON.c:1590-1649 | The same for the elements of an array |
| JsonMinifyPrinted.MembersMinified | tcp/cJSON.c:1770-1881 | The same for the members of an object, whose tabs and line ends disappear |
| JsonMinifyPrinted.EscapedSurvives | tcp/cJSON.c:2887-2907 | An escaped string is copied unchanged exactly when it does not end in a backslash |
| JsonList.Node.Add | tcp/cJSON.c:2012-2043 | Appending appends to the child sequence, and the list stays well linked exactly when it was empty or the new item's `next` is null |
| JsonList.Node.Detach | tcp/cJSON.c:2243-2277 | Detaching removes the item from the sequence, clears its links and keeps the list well linked |
| JsonList.Node.Insert | tcp/cJSON.c:2319-2351 | Inserting inserts at the index, or appends behind the end, or fails for a negative index |
| JsonList.Node.Replace | tcp/cJSON.c:2353-2400 | Replacing updates one position and hands the old item out unlinked |
| JsonList.Node.GetItem | tcp/cJSON.c:1907-1924 | The walk returns the item at the index, or null behind the end |
| JsonList.Node.ArraySize | tcp/cJSON.c:1884-1905 | The walk returns the length of the child sequence |
| JsonList.RemovalLinks | tcp/cJSON.c:2253-2276 | The pointer changes of a removal link the shorter sequence |
| JsonList.InsertionLinks | tcp/cJSON.c:2336-2350 | The pointer changes of an insertion link the longer sequence |
| JsonList.ReplacementLinks | tcp/cJSON.c:2365-2399 | The pointer changes of a replacement link the updated sequence |
| JsonDuplicate.Duplicate | tcp/cJSON.c:2774-2858 | A deep copy exists exactly for trees at most 10000 levels deep, is made of new nodes only, is well linked, and has the source's value without reference marks |
| JsonDuplicate.DuplicateDeep | tcp/cJSON.c:2774-2858 | The same at any depth of the recursion |
| JsonDuplicate.DuplicateChildren | tcp/cJSON.c:2817-2843 | The child walk copies all children in order, or stops at one that is too deep |
| JsonDuplicate.HeightBound | tcp/cJSON.c:2819-2823 | A list of children is within a height exactly when each child is below it |
| JsonSame.CompareIff | tcp/cJSON.c:3057-3180 | For all trees and both case rules comparison holds exactly when the trees have one known kind and: equal bytes in strings and raw texts, numbers within 1 part in 2^52, elements equal position by position, and for each member of either object an equal value in the first member of its name in the other |
| JsonSame.ObjectsEqualIff | tcp/cJSON.c:3139-3175 | Well keyed objects compare equal exactly when they have the same names under the case rule, with equal values |
| JsonSame.FindIff | tcp/cJSON.c:1936-1966 | The search for a name finds a child exactly when it is the first of that name, letters of either case alike or not, with no nameless child before it when case matters |
| JsonSame.NearIff | tcp/cJSON.c:584-588 | Two numbers are taken for equal exactly when their distance is at most 1 part in 2^52 of one of them |
| JsonCompare.CompareSymmetric | tcp/cJSON.c:3057-3180 | Comparison is symmetric under either case rule |
| JsonCompare.CompareWithDuplicate | tcp/cJSON.c:3057-3180 | A tree equals its copy exactly when every object's members are found first under their own keys or have equal values there; distinct keys suffice |
| JsonCompare.RepeatedKeyDiffers | tcp/cJSON.c:3143-3172 | An object with a repeated key and different values, which is not equal to its own copy |
| JsonCompare.CompareWithItself | tcp/cJSON.c:3057-3180 | The exact condition for a tree to compare equal to another tree of the same value |
| JsonCompare.WellKeyedIsConsistent | tcp/cJSON.c:1936-1966 | Objects with distinct keys meet that condition |
| JsonCompare.CompareIgnoresMarks | tcp/cJSON.c:3057-3180 | Reference marks take no part in comparison |
| JsonCompare.GetObjectItem | tcp/cJSON.c:1936-1966 | The lookup walk returns the first child whose key matches under the case rule |
| JsonCompare.CompareItems | tcp/cJSON.c:3057-3180 | Comparison of heap nodes, also with shared children: null equals nothing, a node of known type equals itself, equal trees compare equal, and the outcome is that of the trees for different nodes without sharing or for well keyed trees |
| JsonCompare.CompareElements | tcp/cJSON.c:3115-3137 | The two-pointer walk over array elements |
| JsonCompare.CompareMembers | tcp/cJSON.c:3139-3175 | The two passes over object members |
| XiangqiSearch.Minimax | chess AI/ai.c:194-227 | Fail-soft alpha-beta bounds the plain minimax value from the side on which the window was left, is exact inside it, and gives the shared board back unchanged |
| XiangqiSearch.SearchMoves | chess AI/ai.c:206-226 | The loop with its narrowing window and its cut, against the best of all moves |
| XiangqiSearch.SearchChild | chess AI/ai.c:210-213 | One move made, searched and taken back |
| XiangqiSearch.FullWindowIsExact | chess AI/ai.c:46-47 | Searching with (INT_MIN, INT_MAX) gives exactly the minimax value |
| XiangqiSearch.BestIsExtreme | chess AI/ai.c:215-221 | The minimax value of a node belongs to one of its moves, and no move is better for the side to move |
| XiangqiSearch.BestImproves | chess AI/ai.c:223 | Moves left out by a cut could only have pushed the value further out of the window |
| XiangqiSearch.NextChild | chess AI/ai.c:215-221 | A child searched through the narrowed window keeps the promise about the original window |
| XiangqiSearch.Cut | chess AI/ai.c:223 | Leaving the loop when the window is empty loses nothing that was promised |
| XiangqiSearch.FindBestMove | chess AI/ai.c:229-270 | For every schedule of the batched threads the result is the first move of maximal minimax value above INT_MIN, or the null move if there is none |
| XiangqiSearch.Schedule | chess AI/ai.c:254 | Any running threads may finish at any time; each leaves the value of its own move |
| XiangqiSearch.Join | chess AI/ai.c:259-263 | A joined thread's value is compared in creation order |
| XiangqiSearch.ThreadData.Run | chess AI/ai.c:39-50 | A thread computes the exact value of its move on its own copy of the board |
| XiangqiSearch.BestMoveIsMinimax | chess AI/ai.c:229-270 | The value of the chosen move is the minimax value of the position, which is INT_MIN if none was chosen |
| XiangqiSearch.BestMoveIsUnique | chess AI/ai.c:229-270 | Two runs with different schedules choose the same move |
| XiangqiSearch.WorstIsMated | chess AI/ai.c:194-227 | On every board and to every depth the minimax value is INT_MIN exactly when the machine is mated within the depth, which is said in terms of moves and checks alone |
| XiangqiSearch.NullMoveIff | chess AI/ai.c:230-237 | The null move comes back exactly when every listed move leads to such a mate |
| XiangqiSearch.EvaluateZeroSum | chess AI/ai.c:144-173 | The evaluation for one side is the negation of that for the other exactly when every piece has an owner |
| XiangqiSearch.MaterialSums | chess AI/ai.c:147-167 | The material sums of both sides cancel exactly on owned pieces |
| XiangqiSearch.EvaluateBoard | chess AI/ai.c:144-173 | The double loop and the two check terms compute the evaluation |
| XiangqiSearch.Evaluate | chess AI/ai.c:144-173 | The evaluation stays strictly inside the range of an int |
| XiangqiWorth.EvaluateWeighs | chess AI/ai.c:144-173 | On every board the evaluation is the difference of the sizes of the sets of own and other pieces, weighed 10000, 300, 300, 900, 500, 400 by kind, 120 per pawn at home, 220 past the river and 10 more on columns 0, 2, 6 and 8, with 800 for either check |
| XiangqiWorth.MaterialIsBalance | chess AI/ai.c:147-167 | The same for the first squares of the loop, without the checks |
| XiangqiForce.ValueIsForced | chess AI/ai.c:194-227 | In every position with the invariant the minimax value is at least x exactly when the side can force an evaluation of at least x by valid moves, whatever the other side plays; a side without a move has lost if in check and scores nothing if not |
| XiangqiMirror.MirrorBaseValue | chess AI/ai.c:62-79 | A piece is worth to its side what its mirror image is worth to the other |
| XiangqiScan.UnmakeUndoesMake | chess AI/ai.c:52-60 | Taking a move back restores every square, captures included |
| XiangqiScan.MakeMove | chess AI/ai.c:52-55 | The board after the assignment pair is the moved board |
| XiangqiScan.UnmakeMove | chess AI/ai.c:57-60 | The same for taking back |
| XiangqiScan.GenerateAllValidMoves | chess AI/ai.c:175-192 | The buffer holds the valid moves in loop order, cut off at 256 |
| XiangqiScan.MovesSoundAndComplete | chess AI/ai.c:175-192 | While the buffer does not fill up the list has exactly the valid moves, and it is empty exactly when there is none |
| XiangqiForce.MovesInOrder | chess AI/ai.c:175-192 | On every board the moves are listed in strictly increasing order of their squares, and a valid move is missing only behind 256 listed ones |
| XiangqiScan.SquareSkipped | chess AI/ai.c:179 | Skipping squares of other colours loses no move |
| XiangqiScan.IsPathClear | chess AI/move_validation.c:19-37 | The loops count the pieces strictly between two squares |
| XiangqiScan.NoObstacles | chess AI/move_validation.c:19-37 | No obstacle is counted exactly when all squares between are empty, in either direction |
| XiangqiScan.FindKingPosition | chess AI/util.c:23-36 | The scan returns the first such king, or (-1, -1) |
| XiangqiScan.KingFromFirst | chess AI/util.c:23-36 | The king found stands there and no earlier square holds it; none found means none there |
| XiangqiScan.IsKingInCheck | chess AI/move_validation.c:260-357 | The scan with its early return finds an attacking piece exactly when there is one |
| XiangqiScan.AttacksKing | chess AI/move_validation.c:272-353 | The attack test of one square |
| XiangqiScan.IsValidMove | chess AI/move_validation.c:179-254 | The whole test with its temporary board is the rule: own piece, no own target, the piece's move, no own check |
| XiangqiScan.IsValidKingMove | chess AI/move_validation.c:43-73 | The king's rule with the facing-kings test on a copied board |
| XiangqiScan.IsPieceMove | chess AI/move_validation.c:200-239 | The dispatch by piece, with the rook's and cannon's counting of obstacles |
| XiangqiScan.IsValidPawnMove | chess AI/move_validation.c:150-175 | The nested tests are one step forward, or sideways behind the river |
| XiangqiScan.IsValidHorseMove | chess AI/move_validation.c:100-114 | The horse's test with its blocked leg |
| XiangqiScan.IsValidElephantMove | chess AI/move_validation.c:130-148 | The elephant's test with its blocked eye and the river |
| XiangqiScan.IsValidAdvisorMove | chess AI/move_validation.c:116-128 | The advisor's test within the palace |
| XiangqiSquares.ValidIff | chess AI/move_validation.c:179-254 | A move is valid exactly when it goes from a square of the player to one that is not, as the rule of that piece says in squares, and leaves no check by the rule in squares |
| XiangqiSquares.CheckIff | chess AI/move_validation.c:260-357 | Check is found exactly when the first king of that colour exists and some piece of the enemy threatens its square, said in squares |
| XiangqiSquares.PieceIff | chess AI/move_validation.c:43-175 | Every kind of piece may go exactly where its rule in squares lets it, rook and cannon by the number of pieces strictly between |
| XiangqiSquares.HorseIff | chess AI/move_validation.c:100-114 | A horse goes exactly over a free square next to it, one diagonal step on and away from the start |
| XiangqiSquares.ElephantIff | chess AI/move_validation.c:130-148 | An elephant goes exactly two diagonal steps straight on over a free square, on its side of the river |
| XiangqiSquares.AdvisorIff | chess AI/move_validation.c:116-128 | An advisor goes exactly one diagonal step, to a palace square |
| XiangqiSquares.PawnIff | chess AI/move_validation.c:150-175 | A pawn goes exactly one step forward, or one to the side past the river |
| XiangqiSquares.KingIff | chess AI/move_validation.c:43-73 | A king goes exactly one straight step to a palace square from which no enemy king is seen along the column |
| XiangqiSquares.ObstaclesAreBlockers | chess AI/move_validation.c:19-37 | The obstacles counted are the size of the set of occupied squares strictly between |
| XiangqiSquares.MovedIsAfter | chess AI/ai.c:52-55 | The moved piece stands on its target and its start is empty |
| XiangqiPositions.RunsKeepInvariant | chess AI/game.c:65-70 | Every run keeps: one king a side at most, kings and advisors in their palaces, elephants on their side, colours matching kinds, kings apart, the side that moved not in check, no piece gained |
| XiangqiPositions.MoveKeepsInvariant | chess AI/move_validation.c:179-254 | The same for one valid move |
| XiangqiPositions.StartInvariant | chess AI/board.c:5-52 | The initial board satisfies it, whoever moves first |
| XiangqiPositions.SafeKingsApart | chess AI/move_validation.c:332-339 | If a side is not in check the two kings do not face each other on an open file |
| XiangqiPositions.MoveKeepsPlaces | chess AI/move_validation.c:43-148 | A valid move keeps every piece in the part of the board its kind is tied to |
| XiangqiPositions.MoveKeepsSoleKing | chess AI/ai.c:52-55 | No move doubles a king |
| XiangqiPositions.MoveKeepsMaterial | chess AI/ai.c:52-55 | No move gains a piece for either side |
| XiangqiPositions.StartMaterial | chess AI/board.c:13-51 | Each side starts with sixteen pieces, four of them rooks and cannons |
| XiangqiPositions.MovesNeverOverflow | chess AI/ai.c:175-192 | In every position of a game there are at most 192 valid moves, so the 256-entry buffer never overflows and the list is complete |
| XiangqiPositions.MovesCounted | chess AI/ai.c:175-192 | At most ten moves for each piece and eight more for each rook or cannon |
| XiangqiPositions.CheckCharacterized | chess AI/move_validation.c:280-340 | On such boards check means that a rook, cannon or horse can take the king or a pawn stands right behind it; facing kings never occur |
| XiangqiPositions.CheckAgreesIff | chess AI/move_validation.c:316-331 | Exactly when the program's check agrees with some enemy piece being able to take the king |
| XiangqiPositions.MatedByRules | chess AI/ai.c:194-227 | In a position with the invariant, mate in the list of moves is mate by all valid moves of the rules |
| XiangqiPositions.NullMoveByRules | chess AI/ai.c:230-237 | There the null move comes back exactly when every valid move leads to a forced mate |
| XiangqiBoards.DrawWithAMove | chess AI/game.c:82-91 | A position with the invariant, not in check and with a valid move, in which at depth 3 the null move is the only result and a draw is declared |
| XiangqiBoards.PawnUnnoticed | chess AI/move_validation.c:316-331 | A sound position in which a pawn can take the king and there is no check |
| XiangqiBoards.PawnFeared | chess AI/move_validation.c:316-331 | A sound position in which there is check and nothing can take the king |
| XiangqiBoards.StartDrawn | chess AI/board.c:5-52 | The initial board is exactly the one drawn square by square |
| XiangqiGame.ReachedIsSound | chess AI/game.c:11-75 | Every position a game reaches satisfies the invariant |
| XiangqiGame.InitializeBoard | chess AI/board.c:5-52 | The assignments set up the mirrored initial position |
| XiangqiGame.Game.constructor | chess AI/game.c:11-16 | A new game has the initial board and Black to move |
| XiangqiGame.Game.ProcessPlayerTurn | chess AI/game.c:52-75 | A player's move is played, and the turn passed, exactly when it is valid; otherwise nothing changes |
| XiangqiGame.Game.ProcessAITurn | chess AI/game.c:78-101 | The machine plays a valid best move, or on the null move declares its loss if it is in check and a draw if not, and leaves the position alone |
| XiangqiGame.Game.CheckGameEndConditions | chess AI/game.c:103-148 | The side to move is declared beaten exactly when it is in check and has no valid move |
| XiangqiGame.CanEscape | chess AI/game.c:112-137 | The nested loops with their flags find a valid move exactly when one exists |
| XiangqiGame.ColumnOf | chess AI/util.c:6-12 | A letter gives a column exactly when it is one of that column's two letters |
| XiangqiGame.NamedMove | chess AI/game.c:52-58 | A move on the board is read exactly from the names of its two squares: a letter of either case, and rows counted from the other end |
| XiangqiGame.NullMoveInPlay | chess AI/game.c:82-91 | In every position of a game the machine gives up exactly when every valid move leads to a forced mate within its depth, having no valid move included |
| XiangqiGame.EvaluationInPlay | chess AI/ai.c:144-173 | In every position of a game the evaluation is zero-sum |
| XiangqiMirror.MirrorValue | chess AI/ai.c:194-227 | In every position of a game, to any depth, the minimax value for one side is that of the mirrored position for the other: the program favours no colour |
| XiangqiMirror.MirrorAsGood | chess AI/ai.c:206-221 | The best move's mirror image is available to the other side, which therefore does at least as well |
| XiangqiMirror.MirrorEvaluate | chess AI/ai.c:144-173 | The evaluation of the mirror image for the other side is the same |
| XiangqiMirror.MirrorValidMove | chess AI/move_validation.c:179-254 | A move is valid exactly when its mirror image is valid for the other side |
| XiangqiMirror.MirrorPieceMove | chess AI/move_validation.c:43-175 | The same for the rule of every piece |
| XiangqiMirror.MirrorInCheck | chess AI/move_validation.c:260-357 | A side is in check exactly when the other side is in the mirror image |
| XiangqiMirror.MirrorKing | chess AI/util.c:23-36 | The king found in the mirror image is the mirrored king, though the scan meets the squares in another order |
| XiangqiMirror.MirrorObstacles | chess AI/move_validation.c:19-37 | Obstacles are counted alike in the mirror image |
| XiangqiMirror.MirrorInvariant | chess AI/board.c:5-52 | The mirror image of a position with the invariant has it too |
| XiangqiMirror.MirrorTwice | chess AI/board.c:13-51 | Mirroring twice gives the board back |
| ClientQueue.PushAppends | tcp/ssl/server.c:95-105 | A push to a buffer with room appends to the waiting clients |
| ClientQueue.PopTakesOldest | tcp/ssl/server.c:108-118 | A pop takes the client that has waited longest |
| ClientQueue.TestsMeanSize | tcp/ssl/server.c:98-110 | The two index tests mean empty, and full with one slot unused |
| ClientQueue.Queue.constructor | tcp/ssl/server.c:87-92 | A new queue is empty |
| ClientQueue.Queue.Full | tcp/ssl/server.c:98 | The wait condition of a push holds exactly when 127 clients wait |
| ClientQueue.Queue.Empty | tcp/ssl/server.c:110 | The wait condition of a pop holds exactly when none waits |
| ClientQueue.Queue.Put | tcp/ssl/server.c:101-102 | The stores of a push, on the array |
| ClientQueue.Queue.Take | tcp/ssl/server.c:113-114 | The loads of a pop, on the array |
| QueueProtocol.RunInvariant | tcp/ssl/server.c:95-118 | In every reachable state, for any capacity and number of workers: mutual exclusion, clients pushed equal clients popped followed by those waiting, and while a worker sleeps every waiting client has a worker or a signal on its way |
| QueueProtocol.PromptIff | tcp/ssl/server.c:95-118 | A sleeping accepting thread always means a full queue, or a signal to come, and no sleeping worker, exactly when there are at most capacity - 1 workers |
| QueueProtocol.AllAsleepIff | tcp/ssl/server.c:95-118 | All threads can be asleep for good exactly when there are at least 2 (capacity - 1) workers |
| QueueProtocol.WaitingClientIsTaken | tcp/ssl/server.c:95-118 | From every reachable state with a client in the buffer and a worker inside `queue_pop`, for any capacity and number of workers: however the threads inside the two functions go on until none of them can, they take at most 6 (n + 1) steps and a client is popped |
| QueueProtocol.ComesToRest | tcp/ssl/server.c:95-118 | From every state such a run exists |
| QueueProtocol.DriveKeeps | tcp/ssl/server.c:95-118 | Such runs are no longer than the rank of the state, keep the invariant, and without a pop keep every client in the buffer and a waiting worker waiting |
| QueueProtocol.ServerNeverDeadlocks | tcp/ssl/server.c:291-309 | With 8 workers and 128 slots all of this holds and some thread can always act |
| QueueProtocol.ActsUnlessAllAsleep | tcp/ssl/server.c:95-118 | Some thread can act without a spurious wake-up exactly when not all sleep |
| QueueProtocol.StepExclusive | tcp/ssl/server.c:96-104 | Every step keeps mutual exclusion |
| QueueProtocol.StepFifo | tcp/ssl/server.c:101-114 | Every step keeps first-in-first-out |
| QueueProtocol.StepAttended | tcp/ssl/server.c:99-115 | Every step keeps waiting clients attended, wherever its signal goes |
| QueueProtocol.StepPrompt | tcp/ssl/server.c:99-115 | Every step keeps the accepting thread's promptness below the bound |
| QueueProtocol.StepOutnumbered | tcp/ssl/server.c:99-115 | Every step keeps sleeping workers outnumbered while the accepting thread sleeps |
| QueueProtocol.SignalsAstray | tcp/ssl/server.c:99-115 | The run in which signals meant for the accepting thread wake workers instead |
| QueueProtocol.ClientsArrive | tcp/ssl/server.c:303-309 | The run in which all workers sleep and then clients wake some of them |
| PacketFraming.ReceivedAreSent | tcp/ssl/server.c:162-183 | From any first part of the sent bytes the server assembles exactly the packets wholly inside it, in order, up to the first length it refuses |
| PacketFraming.AllArriveIff | tcp/ssl/server.c:167-171 | All packets of a complete stream arrive exactly when every length is between 1 and 8192 |
| PacketFraming.ContainedIsMost | tcp/ssl/server.c:162-183 | The number of packets wholly inside is the largest that fits |
| PacketFraming.HeaderRoundTrip | tcp/ssl/client.c:30 | The big-endian length survives `htonl` and `ntohl` |
| PacketFraming.NetworkOrder | tcp/ssl/client.c:30 | The four bytes are the digits of the length to the base 256, the most significant first, and the header of no other length |
| PacketFraming.Wire.SendPacket | tcp/ssl/client.c:29-34 | Below 2^31 bytes success means the whole frame is on the wire, failure a first part of it; from there on success means only the header, sent with a length of 2^32 - 1 |
| PacketFraming.Connection.RecvAll | tcp/ssl/server.c:76-84 | However the stream is split across `recv` calls, all bytes asked for arrive, or the end comes before them |
| PacketFraming.Connection.ReceivePacket | tcp/ssl/server.c:163-183 | One turn takes the packet at the front of the stream, or nothing if its length is refused or the stream ends within it |
| PacketFraming.Connection.ReceivePackets | tcp/ssl/server.c:162-183 | The packet loop assembles the packets of the byte stream |
| SteelSearch.SearchIsComplete | catthep1/main.cpp:77-89 | With positive lengths the pruned search reaches every feasible count vector exactly once, in lexicographic order, and no other |
| SteelSearch.ReachedIffFeasible | catthep1/main.cpp:77-89 | The same below any first part of the counts |
| SteelSearch.ReachedInOrder | catthep1/main.cpp:85-88 | The leaves come in strictly increasing order |
| SteelSearch.TotalGrows | catthep1/main.cpp:78 | A first part of a vector never uses more than the whole, so pruning is safe |
| SteelSearch.CountsAreCapped | catthep1/main2.cpp:77-85 | A count that fits the bar never exceeds the bar length over the shortest length |
| SteelCutting.SteelCutter.Search | catthep1/main.cpp:77-89 | The recursion that overwrites one count array saves exactly the patterns of the leaves below it |
| SteelCutting.SteelCutter.SavePattern | catthep1/main.cpp:101-116 | One pattern is saved exactly when its waste and its lengths are acceptable |
| SteelCutting.SteelCutter.IsEffectivePattern | catthep1/main.cpp:91-99 | At most one large length and two small ones |
| SteelCutting.SteelCutter.FindPatterns | catthep1/main.cpp:59-60 | The saved patterns are those of the kept vectors, in order |
| SteelCutting.KeptIffFeasible | catthep1/main.cpp:77-116 | A vector is kept exactly when it is feasible and savable |
| SteelCutting.KeptOnce | catthep1/main.cpp:77-116 | The kept vectors are in lexicographic order, none twice |
| SteelPlan.OptimizeCutting | catthep1/main.cpp:142-193 | The greedy loop ends; cut plus remaining is the demand, cut is the sum over used patterns, bars and waste are counted right; every bar is the first pattern of highest score that fits what the bars before it have left; it stops only when nothing remains or every pattern has some piece too many |
| SteelPlan.TwiceTheBars | catthep1/main.cpp:9-11 | Bars cut by saved patterns are fewer than twice the bars of any plan that gives at least the same pieces |
| SteelPlan.Run | catthep1/main.cpp:54-68 | The whole program: conservation, greedy choices, the stopping condition over all savable vectors, and the factor of two |
| SteelPlan.Choose | catthep1/main.cpp:152-172 | The inner loop picks the first fitting pattern of the highest score |
| SteelPlan.ScorePattern | catthep1/main.cpp:118-140 | The score loop over the listed items computes the score of the vector |
| SteelRules.ScoreWeighs | catthep1/main.cpp:118-140 | The score in tenths: six times the used part of a bar, two if the demand of some length taken is used up, one for at most two lengths, one for a length above half a bar |
| SteelRules.SavableIff | catthep1/main.cpp:91-104 | A pattern is saved exactly when its length is between 5.8500015 and 11.700001 and it takes at most one length above half a bar and at most two others |
| SteelRules.OnePieceMore | catthep1/main.cpp:87 | One piece more adds its own length to the total |
| SteelPlan.IsPossible | catthep1/main.cpp:157-164 | A pattern is possible exactly when its vector fits what remains |
| SteelPlan.CutBar | catthep1/main.cpp:176-182 | One bar moves its pieces from remaining to cut |
| SteelPlan.GreedyNext | catthep1/main.cpp:151-186 | One more bar that is the first best for what remains keeps the whole plan greedy |
| SteelPlan.AccountedNext | catthep1/main.cpp:176-186 | One more bar keeps all accounts balanced |
| SteelPlan.LengthOfPlan | catthep1/main.cpp:142-193 | The bars of a plan are together as long as its pieces |
| SteelPlan.SavableHoldsPieces | catthep1/main.cpp:101-104 | A saved pattern holds at least one piece, which is why the loop ends |
| SteelCapped.CapLosesNothing | catthep1/main2.cpp:77-85 | With the common cap the feasible vectors are exactly those that fit the bar |
| SteelCapped.Cutter.FindPatterns | catthep1/main2.cpp:88-132 | The second version finds exactly the vectors with at most half a bar of waste, each once, in lexicographic order |
| SteelCapped.Cutter.Search | catthep1/main2.cpp:109-132 | Its recursion appends the tight leaves in order |
| SteelCapped.Cutter.constructor | catthep1/main2.cpp:77-85 | The loop computes the cap from the shortest length |
| MatrixThreads.MultiplyParallel | matrix/matrix.c:106-170 | For every thread count, at least one row and every interleaving of single reads and writes, each entry is the left-to-right sum of its products; unequal shapes give no result |
| MatrixThreads.Product.Run | matrix/matrix.c:77-103 | Every schedule of the workers ends with that result |
| MatrixThreads.Product.StepOf | matrix/matrix.c:93-100 | One step of one worker disturbs no other worker's rows |
| MatrixThreads.Product.Step | matrix/matrix.c:93-100 | One step keeps the partial sums of the worker's rows and leaves less work |
| MatrixThreads.SplitRows | matrix/matrix.c:119-158 | The row ranges are disjoint, cover all rows in order and differ by at most one row |
| MatrixThreads.SplitRowsEvenly | pthread/multithread_example.c:53-57 | The row ranges of the other program cover all rows too |
| MatrixThreads.OneOwner | matrix/matrix.c:139-158 | Under such ranges every row belongs to exactly one thread |
| MatrixThreads.Threads | matrix/matrix.c:120-125 | The clamped thread count is between one and the number of rows, and zero only without rows |
| MatrixThreads.LeftToRight | matrix/matrix.c:93-100 | The order of the additions, on three products |
| MatrixThreads.UnitRight | matrix/matrix.c:93-100 | Without rounding, multiplying by the unit matrix on the right gives the matrix back |
| MatrixThreads.UnitLeft | matrix/matrix.c:93-100 | The same on the left |
| MatrixThreads.MultiplyTransposed | pthread/multithread_example.c:46-63 | The transposed version computes the same sums, for every interleaving of its workers' steps |
| MatrixThreads.Transposed.Run | pthread/multithread_example.c:54-62 | Every schedule of the workers ends with that result |
| MatrixThreads.Transposed.StepOf | pthread/multithread_example.c:32-44 | One step of one worker disturbs no other worker's rows |
| MatrixThreads.Transposed.Step | pthread/multithread_example.c:32-44 | One added product or one written entry keeps the running sum and the finished entries, and leaves less work |
| MatrixThreads.Transposed.Transpose | pthread/multithread_example.c:24-30 | The copy is the transpose |
| Base64.RoundTrip | tcp/giaima.c:35-96 | Decoding an encoding gives the data, with a zero byte appended when its length is 2 modulo 3 |
| Base64.RoundTripIff | tcp/giaima.c:71-80 | Decoding gives exactly the data if and only if its length is not 2 modulo 3 |
| Base64.EncodeInjective | tcp/mahoa.c:26-55 | Different data have different encodings |
| Base64.GroupRoundTrip | tcp/giaima.c:53-74 | Four letters of three octets decode to them |
| Base64.OneLeft | tcp/giaima.c:75-76 | One octet left over decodes right |
| Base64.TwoLeft | tcp/giaima.c:71-80 | Two octets left over decode to three bytes |
| Base64.LetterRoundTrip | tcp/giaima.c:16-24 | The inverse table undoes the alphabet |
| Base64.TableIsAlphabet | tcp/mahoa.c:10-11 | The encoder's table is the alphabet of section 4 of RFC 4648 |
| Base64.RawPadded | tcp/mahoa.c:45-51 | Overwriting the last letters gives the padded encoding |
| Base64.PaddedIff | tcp/mahoa.c:45-51 | The text ends in padding exactly when octets were left over |
| Base64Digits.ThreesSpelled | tcp/mahoa.c:32-43 | Each three octets, as one number of 24 bits, are written as its four digits to the base 64 in the alphabet of RFC 4648 |
| Base64Digits.RestSpelled | tcp/mahoa.c:45-51 | The length of the text, and its end: two digits and two paddings for one octet left over, three and one for two |
| Base64Digits.DecodedIff | tcp/giaima.c:36-65 | A text is decoded exactly when its length is a multiple of four and all its characters are letters of the alphabet or padding, wherever that stands |
| Base64Digits.GroupDecoded | tcp/giaima.c:67-80 | Four characters are one number of 24 bits whose octets all count unless the third is padding |
| Base64.Base64Encode | tcp/mahoa.c:26-55 | The loop and the padding stores produce the encoding and a NUL in an array of the computed size |
| Base64.Base64Decode | tcp/giaima.c:35-96 | The loop decodes group by group, and refuses a length that is no multiple of four or a character outside the alphabet |
| Base64.DecodeGroup | tcp/giaima.c:67-80 | The stores of one group |

## Left out

- JsonParser.ParseBuffer.ParseArray: builds the element list as a value; the pointer work of linking children is modelled in JsonList and JsonDuplicate, so running out of memory while parsing, and freeing what was built, are not modelled.
- JsonParser.ParseBuffer.ParseObject: the same for members.
- JsonParser.Parse: the error position reported after a failed parse is not modelled.
- JsonGrammar.ParseNumber: numbers are exact reals, so rounding, overflow to infinity and the locale's decimal point are not modelled; the same holds for JsonParser.ParseBuffer.ParseNumber.
- JsonPrinter.PrintBuffer.PrintNumber: the digits `sprintf` writes are a parameter, numbers of the grammar of at most 25 bytes, with `.` for the locale's decimal point; not-a-number and the infinities, which are printed as null, are not modelled.
- JsonPrinter.PrintBuffer.Ensure: sizes are unbounded, so size_t overflow is not modelled, while its tests against INT_MAX are; allocation may fail at any call.
- JsonPrinter.PrintBuffered: whether allocation succeeds is left open, so success is not promised.
- JsonCompare.CompareItems: numbers are compared as exact reals, with the program's relative tolerance; not-a-number and rounding are not modelled.
- SteelSearch.SearchIsComplete: lengths are reals; a length that is not positive makes pruning lose vectors and is excluded.
- SteelCapped.Cutter.Search: appends the counts of a pattern where the program makes an object of the counts that are not zero.
- SteelCapped.Cutter.FindPatterns: stops before the patterns are scored, sorted and written out.
- XiangqiSearch.Schedule: a thread gets to its end in one step; it works on its own copy of the board, so no finer interleaving can be told apart.
- XiangqiSearch.Minimax: a negative depth does not end in the program and is excluded.
- PacketFraming.Connection.ReceivePackets: what is done with a packet (RSA, AES, messages) is not modelled, nor which packets are taken for keys.
- cJSON_Raw, null keys and null strings, constant-string and reference flags beyond copying, item creation helpers, allocator hooks and freeing.
- Bit operations on disjoint bit fields are written as arithmetic.
- std::sort: the demands come in any order, and the scoring and sorting of the second steel program is left out.
- Console input and output, the board's printing, and the draw rules the game marks as still to do.
- The earlier variants of these programs in `chess/`, `chess MAU/` and `catthep/`, and the floating-point programs in `analysis/` and `KC/`.
- Sockets, TLS and compression libraries, io_uring, databases, the chat and peer-discovery programs: input, output and libraries rather than logic.
