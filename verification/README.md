# Verification model of the receiver software's data structures

A Dafny model, with proofs, of four components of the repository whose fast or stateful code has a
simple specification behind it.

* **JSON (`files/dao/json/cJSON.c`)**: the recursive-descent parser over a cursor, the printer into a
  growing byte buffer, strings with their UTF-16 escapes and UTF-8 bytes, and the heap of sibling lists
  with list edits, duplication and comparison. The format is RFC 8259 (sections 2 to 5 for values,
  section 7 for strings), UTF-8 is section 3 of RFC 3629, surrogate pairs section 2.2 of RFC 2781.
* **Bitmaps (`files/utils/bitops.h`)**: set and clear of ranges, searches, visits, population counts and
  multi-word shifts, against the plain sequence of bits.
* **The node index (`files/dao/mxml-3.0/mxml-index.c`)**: the in-place quicksort, the modified binary
  search and the cursor kept in the index, against a linear filter over the nodes.
* **Dispatcher and workers (`files/net/net_thread.c`)**: the rendezvous of one dispatcher with any number
  of workers as a transition system, the packet walker, and the counters it feeds.

`dafny verify dfyconfig.toml` checks the whole project.

## How the files fit together

| files | what they hold |
|---|---|
| `Ascii`, `JsonValue` | bytes, and values as trees |
| `Unicode`, `JsonString`, `JsonEscape` | UTF-8 and UTF-16, the two passes over a string, what the printer escapes |
| `JsonNumber` | number text and what `strtod` takes of it |
| `JsonParse`, `JsonGrammar`, `JsonDocument` | the parser as a function; syntax trees with their text and meaning; the two agree, both ways |
| `JsonError` | where the parser reports an error |
| `JsonCompare`, `JsonTree` | comparison on values; items on the heap with their links |
| `JsonStandard` | the texts of RFC 8259, what they denote, and what the parser makes of them |
| `JsonParser` | the parser as it runs: a buffer class with `offset` and `depth` that builds chained items, refining the function |
| `JsonText`, `JsonLayout` | the printed text as a function; its syntax tree; the round trip; the layout byte by byte |
| `JsonPrinter` | the printer as it runs: it walks chained items and writes into a buffer class that regrows its array, refining the text |
| `JsonRoundTrip` | printer and parser one after the other |
| `Word`, `BitCount`, `Bitmap` | one word bit by bit; population counts and lowest set bit; arrays of words |
| `NodeOrder`, `NodeSort`, `NodeIndex` | the two comparisons; the sort; search, cursor and filter |
| `Rendezvous`, `PacketWalker` | the transition system; the walker and the counters |

An item on the heap stands for a value, which its validity ties to the chained children. A parser method
ensures that the value of the tree it built, the cursor and the depth are those of the parse function, also
where parsing fails. The parse function accepts exactly the texts of the syntax trees. A printer method
succeeds exactly if the text and two more bytes fit, and then the buffer holds the text. The text is that
of a syntax tree that denotes the printed value, so parsing it gives the value back.

What the functions that the code calls do to single characters is fixed by lemmas that name the characters: escapes
and digits, the layout of printed text, case, the order of texts, the first bytes of a packet.

## Where the code and its documentation differ

* `cJSON.h` asks for five spare bytes in the buffer of `cJSON_PrintPreallocated`. The code needs one byte
  more than the text and its NUL (`JsonPrinter.PrintPreallocated`).
* The comment on `bitmap_shift_right` does not exclude any shift count. With `n == bits` and `bits` a
  multiple of 64 the aligned branch stores to word -1; `Bitmap.ShiftRightInRange` says that this is
  the only such case, and `Bitmap.ShiftRight` covers all others.
* `mxmlIndexFind` accepts a value without an element name, but the index is sorted by name first. Such queries
  find everything exactly if the values rise along the index or it has at most two nodes
  (`NodeIndex.ValueAloneExact`); `NodeIndex.ValueAloneCanMiss` gives three nodes of which one query misses the only
  match.
* `cJSON_Compare` looks names up first-match. An object with two different members of one name does not
  compare equal to an equal object, and only the pointer test makes it equal to itself
  (`JsonCompare.CompareIsEquivalence`, `JsonCompare.DuplicatesBreakReflexivity`).
* The broadcast waits for the smaller of the notified and the counted threads, and the count is reset only when it
  returns. It can return over an unfinished worker exactly if fewer threads are counted than notified, or a count
  of an earlier round is left over, or a worker of an earlier round is still on its way to count up
  (`Rendezvous.WaitsForAllIffCounted`). So one round with too few threads counted can spoil a later one that has
  enough (`Rendezvous.ShortRoundSpoilsTheNext`).
* RFC 8259 lets a string contain U+0000, as the escape `\u0000`. The parser takes the escape, but its strings and
  names are C strings that end there: `"a\u0000b"` becomes `a`, and the names `"a\u0000x"` and `"a\u0000y"` become one.
  Every other text within the limits yields what it denotes (`JsonStandard.StandardAccepted`).
* The walker trusts the marks and lengths it finds. In a vector that is not laid out as packets it can offer bytes
  behind the vector, and the two counters need not add up to its length (`PacketWalker.OffersInside` and
  `PacketWalker.CreditExact` say when).

## Model

| member | source | states |
|---|---|---|
| `JsonText.RoundTrip` | `files/dao/json/cJSON.c:708-1727` | For every value with C strings, number text and nesting up to 1000, the text of the formatted and of the unformatted printer is parsed to that value, and nothing is left over |
| `JsonLayout.PrintedLayout` | `files/dao/json/cJSON.c:1277-1727` | For every value there is exactly one syntax tree laid out as the printers do it, byte by byte (unformatted no white space; formatted a space before later items, each member on a line of its own with a tab per level, a tab before its value, the closing brace on a line of its own), and its text is the printed text |
| `JsonLayout.EscapeExact` | `files/dao/json/cJSON.c:837-956` | The text of a string is the one that writes the seven characters with a letter behind a reverse solidus, the other control characters with two small hexadecimal digits, and everything else as it is |
| `JsonRoundTrip.PrintThenParse` | `files/dao/json/cJSON.c:1010-1170` | Printing a tree of items and parsing the text to its end gives a separate, newly allocated tree of the same value, by either printer and either growth route |
| `JsonText.TextDetermines` | `files/dao/json/cJSON.c:1277-1727` | Different values never have the same text, even if one is printed formatted and the other is not |
| `JsonDocument.AcceptsTheGrammar` | `files/dao/json/cJSON.c:1010-1087` | A text is accepted as a whole if and only if it is a text of the grammar, nested at most 1000 deep |
| `JsonError.ErrorPosition` | `files/dao/json/cJSON.c:1010-1087` | A refused text is, up to the error position, the beginning of a text of the grammar (where a name is missing the position is one further); a text refused only for what follows its value is blamed at the first byte behind it that is no white space |
| `JsonStandard.StandardAccepted` | `files/dao/json/cJSON.c:1010-1087` | Every RFC 8259 text with whole code points in its escapes, numbers of at most 63 characters and nesting up to 1000 is accepted to its end and yields what it denotes with every string and name cut at its first U+0000; that is what it denotes if and only if no string and no name has the escape `\u0000` in it |
| `JsonStandard.DenotesOne` | `files/dao/json/cJSON.c:1010-1087` | Each such text denotes exactly one value, whatever the parser makes of it |
| `JsonStandard.NulIsLost` | `files/dao/json/cJSON.c:708-834` | `"a\u0000b"` denotes three characters, and the parsed string is `a` |
| `JsonDocument.DocumentComplete` | `files/dao/json/cJSON.c:1010-1087` | Every text of the grammar, with or without a byte order mark and any white space, is parsed to what it denotes, up to its end, or right behind the value if more may follow |
| `JsonDocument.DocumentSound` | `files/dao/json/cJSON.c:1010-1087` | Whatever is accepted is, up to where parsing ended, a text of the grammar that denotes the returned tree; if more may follow, that end is the end of the value |
| `JsonDocument.GrammarUnambiguous` | `files/dao/json/cJSON.c:1010-1087` | No text has two meanings |
| `JsonDocument.ParseDocument` | `files/dao/json/cJSON.c:994-1087` | The end of parsing and every error position lie inside the text; when only white space may follow, the end is the end of the text |
| `JsonGrammar.Complete` | `files/dao/json/cJSON.c:1222-1613` | Where the text of a syntax tree stands and the depth allows, parsing yields its meaning and stops right behind it |
| `JsonDocument.Sound` | `files/dao/json/cJSON.c:1222-1613` | Every parsed value is the meaning of a syntax tree whose text stands there, and the depth limit held throughout |
| `JsonParse.ParseValue` | `files/dao/json/cJSON.c:1222-1274` | Success strictly advances the cursor and leaves it at or before the NUL; an error position is inside the buffer; the recursion ends |
| `JsonParser.ParseWithOpts` | `files/dao/json/cJSON.c:1010-1087` | The entry point returns a new, well-formed tree of the value and the end that the parse function defines, or NULL and its error position |
| `JsonParser.ParseBuffer.ParseValue` | `files/dao/json/cJSON.c:1222-1274` | The tree built in the item has the value of the parse function, and cursor and depth are its; success restores the depth, failure leaves it within the limit |
| `JsonParser.ParseBuffer.ParseArray` | `files/dao/json/cJSON.c:1351-1442` | The loop chains one new item after another into a well-formed list whose values are those the parse function reads, with the same error positions |
| `JsonParser.ParseBuffer.ParseObject` | `files/dao/json/cJSON.c:1507-1613` | The same for members with their names |
| `JsonParser.ParseBuffer.ParseString` | `files/dao/json/cJSON.c:708-834` | The item becomes the string of the decoded bytes, or parsing stops at the position the source reports |
| `JsonParser.ParseBuffer.MeasureString` | `files/dao/json/cJSON.c:719-750` | The first pass finds the closing quote, if there is one, and counts the escapes it steps over |
| `JsonParser.ParseBuffer.DecodeString` | `files/dao/json/cJSON.c:754-818` | For any text, malformed escapes included, the second pass with its NUL stays inside what the first pass asked for, and yields the decoded bytes or the position of the bad escape |
| `JsonParser.ParseBuffer.ParseNumber` | `files/dao/json/cJSON.c:276-350` | The cursor moves over exactly what `strtod` accepts of the first 63 number characters |
| `JsonParser.ParseBuffer.SkipWhitespace` | `files/dao/json/cJSON.c:973-991` | The cursor never moves back and stops at the first byte above 32, or on the last byte |
| `JsonParser.ParseBuffer.SkipUtf8Bom` | `files/dao/json/cJSON.c:994-1007` | A byte order mark is stepped over, if a byte follows it in the text |
| `JsonString.BudgetFits` | `files/dao/json/cJSON.c:719-750` | As long as the bytes written and the escapes scanned are at most the bytes consumed, what is written fits |
| `JsonString.BudgetEscape` | `files/dao/json/cJSON.c:760-816` | Every escape keeps that balance, also where the two passes disagree about what is an escape |
| `JsonString.ParseStringComplete` | `files/dao/json/cJSON.c:708-834` | Wherever a string body stands between quotes it is parsed to what it denotes |
| `JsonString.ParseStringSound` | `files/dao/json/cJSON.c:708-834` | A parsed string is a string body between quotes |
| `JsonString.CStringExact` | `files/dao/json/cJSON.c:811-815` | What is kept of the decoded bytes is all that stands before the first byte 0 |
| `JsonEscape.LiteralExact` | `files/dao/json/cJSON.c:587-705` | With valid digits an escape is accepted exactly if it is a scalar value or a high surrogate followed by a low one; every other surrogate is rejected |
| `JsonEscape.ShortEscapeExact` | `files/dao/json/cJSON.c:771-792` | The two-character escapes that are decoded, and what they mean, are the eight of section 7 of RFC 8259 |
| `JsonEscape.EscapeDecodes` | `files/dao/json/cJSON.c:550-705` | Every scalar value, as one unit or as its pair, in digits of either case, decodes to its UTF-8 encoding |
| `JsonEscape.PiecesAreBody` | `files/dao/json/cJSON.c:708-834` | Every string RFC 8259 can write without lone surrogates is accepted; its value is the concatenation of its characters and escapes up to the first zero byte, so all of it exactly if there is none |
| `JsonEscape.BodyIsPieces` | `files/dao/json/cJSON.c:708-834` | Where every `\u` is followed by four hexadecimal digits, the strings accepted are exactly the sequences of characters, short escapes, scalar values and surrogate pairs |
| `JsonEscape.EscapeRoundTrip` | `files/dao/json/cJSON.c:837-956` | Decoding undoes the printer's escaping, for every C string |
| `Unicode.Utf8Unique` | `files/dao/json/cJSON.c:650-699` | The bytes written for a scalar value are its only well-formed UTF-8 encoding |
| `Unicode.Utf16LiteralToUtf8` | `files/dao/json/cJSON.c:587-705` | The conversion returns 0 and writes nothing for a bad escape, and otherwise appends the UTF-8 of the code point |
| `Unicode.EncodeUtf8` | `files/dao/json/cJSON.c:650-699` | The loop that stores the bytes from the last to the first produces the encoding |
| `Unicode.ParseHex4` | `files/dao/json/cJSON.c:550-583` | Four digits of either case give their value, anything else 0 |
| `Unicode.HexDigits` | `files/dao/json/cJSON.c:550-583` | The digits are 0 to 9 and a to f in either case, with the values 0 to 15, and no other byte |
| `Unicode.JoinIsScalar` | `files/dao/json/cJSON.c:640-643` | Every surrogate pair stands for one code point above 0xFFFF, and no other pair stands for it |
| `JsonNumber.AcceptedIsNumber` | `files/dao/json/cJSON.c:287-349` | What is taken of a run of number characters is a number on its own |
| `JsonNumber.AcceptedIsLongest` | `files/dao/json/cJSON.c:276-350` | Nothing longer than what is taken of a run is a number |
| `JsonNumber.Alphabet` | `files/dao/json/cJSON.c:294-318` | The characters collected are the digits, the two signs, the point, and the letter of the exponent in either case |
| `JsonNumber.NumberIsNumeral` | `files/dao/json/cJSON.c:276-350` | The number texts are exactly the numerals of at most 63 characters: sign, digits with at most one point, exponent |
| `JsonNumber.StrictIsNumber` | `files/dao/json/cJSON.c:276-350` | Every number section 6 of RFC 8259 allows, of at most 63 characters, is one of them |
| `JsonPrinter.PrintBuffer.Ensure` | `files/dao/json/cJSON.c:383-468` | Room for the needed bytes and one more, exactly if the capacity allows; the buffer grows to twice what is needed, or to INT_MAX, and growing by either route keeps the printed prefix |
| `JsonPrinter.PrintBuffer.UpdateOffset` | `files/dao/json/cJSON.c:471-481` | The offset moves from wherever printing left it to the end of the text |
| `JsonPrinter.PrintBuffer.PrintNumber` | `files/dao/json/cJSON.c:484-547` | Success exactly if the text is one the 26 bytes can hold and it fits, and then the number text stands in the buffer |
| `JsonPrinter.PrintBuffer.CountEscapes` | `files/dao/json/cJSON.c:864-888` | The first pass computes exactly how many bytes escaping adds |
| `JsonPrinter.PrintBuffer.PrintString` | `files/dao/json/cJSON.c:837-956` | The fast and the escaping route both leave the quoted, escaped string; it succeeds exactly if it fits; no byte is stored outside what was granted, the NUL behind every numeric escape included |
| `JsonPrinter.PrintBuffer.PrintValue` | `files/dao/json/cJSON.c:1277-1348` | NULL fails; an item succeeds exactly if the serializer's text of its value and two more bytes fit, and then the buffer holds the old contents and that text |
| `JsonPrinter.PrintBuffer.PrintArray` | `files/dao/json/cJSON.c:1445-1504` | The same for arrays, along the chain of children, the depth restored |
| `JsonPrinter.PrintBuffer.PrintObject` | `files/dao/json/cJSON.c:1616-1727` | The same for objects, with the indentation of formatted output |
| `JsonPrinter.Print` | `files/dao/json/cJSON.c:1097-1170` | The returned memory is exactly the text and its NUL |
| `JsonPrinter.PrintBuffered` | `files/dao/json/cJSON.c:1172-1200` | The same text whatever the first size of the buffer, and no text for a negative size |
| `JsonPrinter.PrintPreallocated` | `files/dao/json/cJSON.c:1202-1219` | It succeeds exactly if the buffer has one byte more than the text and its NUL, and then holds exactly the text |
| `JsonTree.Item.AddItemToArray` | `files/dao/json/cJSON.c:1858-1885` | Appends to the child sequence and to the value; the list stays well formed |
| `JsonTree.Item.AddItemToObject` | `files/dao/json/cJSON.c:1909-1944` | Names the item and appends the member |
| `JsonTree.Item.InsertItemInArray` | `files/dao/json/cJSON.c:2155-2182` | Inserts at the index, appends beyond the end, does nothing for a negative index |
| `JsonTree.Item.DetachItemViaPointer` | `files/dao/json/cJSON.c:2085-2113` | Removes the child; it leaves as a separate tree without siblings, and nothing else changes |
| `JsonTree.Item.DetachItemFromArray` | `files/dao/json/cJSON.c:2115-2123` | The same by index, and nothing happens for an index outside the list |
| `JsonTree.Item.ReplaceItemViaPointer` | `files/dao/json/cJSON.c:2184-2217` | False exactly for a NULL argument; otherwise exactly that child is replaced and the old one is unlinked; replacing an item by itself changes nothing |
| `JsonTree.Item.Refresh` | `files/dao/json/cJSON.c:1858-2217` | After any edit below a child that leaves the child a well-formed tree apart from the rest, the parent is a well-formed tree again, its value with the new value in the place of the old |
| `JsonTree.Item.AddItemBelow` | `files/dao/json/cJSON.c:1753-1891` | Walking down a path of indices of any length and appending there leaves every ancestor well formed, with the value changed at that place |
| `JsonTree.AppendAtPath` | `files/dao/json/cJSON.c:1753-1891` | The container at the end of the path has the item as its last element, and every value not on the path is where it was |
| `JsonTree.Item.GetArrayItem` | `files/dao/json/cJSON.c:1753-1770` | The child at the index, or NULL |
| `JsonTree.Item.GetObjectItem` | `files/dao/json/cJSON.c:1782-1812` | The first child whose name is the same, to the byte or up to the case of the letters A to Z, or NULL |
| `JsonTree.Item.Duplicate` | `files/dao/json/cJSON.c:2564-2641` | A separate, newly allocated tree of the same value, or of the item alone |
| `JsonTree.Item.Compare` | `files/dao/json/cJSON.c:2840-2963` | On any trees, equal values compare equal, and values that compare equal have the same abstract value; on separate or consistent trees comparing decides equality; NULL equals nothing, an item equals itself |
| `JsonTree.Item.CompareWithDuplicate` | `files/dao/json/cJSON.c:2564-2963` | A recursive duplicate compares equal to its source exactly if the source is consistent |
| `JsonCompare.CompareExact` | `files/dao/json/cJSON.c:2840-2963` | Two values compare equal if and only if both are consistent (equal names, equal values) and have the same abstract value of sequences and maps |
| `JsonCompare.CompareIsEquality` | `files/dao/json/cJSON.c:2840-2963` | Without duplicate names, comparing is equality of abstract values |
| `JsonCompare.CompareIsEquivalence` | `files/dao/json/cJSON.c:2840-2963` | Symmetric and transitive on all values, reflexive on exactly the consistent ones |
| `JsonCompare.DuplicatesBreakReflexivity` | `files/dao/json/cJSON.c:2922-2957` | Two members of one name and different values: the object does not equal itself |
| `JsonCompare.OrderIrrelevant` | `files/dao/json/cJSON.c:2922-2957` | An object compares equal to a rearrangement of its members exactly if it is consistent, and then so is the rearrangement |
| `JsonCompare.TableIsLookup` | `files/dao/json/cJSON.c:1782-1812` | Looking a name up agrees with the abstract map of the members |
| `JsonCompare.CaseInsensitiveStrcmp` | `files/dao/json/cJSON.c:104-125` | 1 if a pointer is NULL; 0 exactly for texts of one length that differ in the case of the letters A to Z at most; otherwise the difference of the small letters at the first place where they differ in more |
| `JsonCompare.FoldedExact` | `files/dao/json/cJSON.c:104-125` | Folding forgets that case and nothing else |
| `JsonCompare.LookupExact` | `files/dao/json/cJSON.c:1782-1812` | A lookup finds the first member whose name agrees |
| `BitCount.Hweight8` | `files/utils/bitops.h:159-170` | The branch-free count is the bit-by-bit count, for every byte |
| `BitCount.Hweight16` | `files/utils/bitops.h:178-191` | The same for 16 bits |
| `BitCount.Hweight32` | `files/utils/bitops.h:199-213` | The same for 32 bits |
| `BitCount.Hweight64` | `files/utils/bitops.h:221-240` | The same for 64 bits |
| `BitCount.Ffs` | `files/utils/bitops.h:113-143` | The halving search returns the position of the lowest set bit plus one, and 0 for 0 |
| `Word.FirstMaskBit` | `files/utils/bitops.h:96-96` | The first-word mask keeps exactly the positions from the start on |
| `Word.LastMaskBit` | `files/utils/bitops.h:105-105` | The last-word mask keeps exactly the positions below the end, all of them at a multiple of 64 |
| `Bitmap.SetRange` | `files/utils/bitops.h:539-558` | Exactly the bits of the range become set, for any alignment and length; every other bit of every word is unchanged |
| `Bitmap.ClearRange` | `files/utils/bitops.h:568-587` | The same for clearing |
| `Bitmap.FindNextBit` | `files/utils/bitops.h:600-628` | The first set position from the start on, or the number of bits, whatever the overhead bits hold |
| `Bitmap.FindNextZeroBit` | `files/utils/bitops.h:666-697` | The same for clear positions |
| `Bitmap.ForEachSetBit` | `files/utils/bitops.h:650-653` | The positions visited are the set positions below the size |
| `Bitmap.ForEachClearBit` | `files/utils/bitops.h:719-722` | The positions visited are the clear positions below the size |
| `Bitmap.PositionsExact` | `files/utils/bitops.h:640-722` | Those sequences hold every such position, once, in increasing order |
| `Bitmap.BitmapWeight` | `files/utils/bitops.h:734-744` | The weight is the number of positions `for_each_set_bit` visits |
| `Bitmap.ShiftRight` | `files/utils/bitops.h:988-1033` | Bit k becomes source bit k + n, or 0 beyond the end, also when source and destination are one array |
| `Bitmap.ShiftRightInRange` | `files/utils/bitops.h:1000-1011` | The word stored last lies in the bitmap if and only if the shift is not by all bits of whole words |
| `Bitmap.ShiftLeft` | `files/utils/bitops.h:1046-1102` | Bit k becomes source bit k - n, or 0 below n, also in place |
| `NodeOrder.LeTotal` | `files/dao/mxml-3.0/mxml-index.c:499-530` | The node comparison is total and antisymmetric up to equal keys |
| `NodeOrder.LeTrans` | `files/dao/mxml-3.0/mxml-index.c:499-530` | It is transitive |
| `NodeOrder.StrcmpExact` | `files/dao/mxml-3.0/mxml-index.c:499-530` | The comparison of names and values is the order of a dictionary: the first difference decides, and a beginning comes before the whole |
| `NodeOrder.LeExact` | `files/dao/mxml-3.0/mxml-index.c:499-530` | Nodes are ordered by name, and among equal names by the value of the index attribute |
| `NodeOrder.FindMonotone` | `files/dao/mxml-3.0/mxml-index.c:538-571` | For a query with an element name, or nodes of one name, the query comparison is monotone along the sorted index |
| `NodeSort.IndexSort` | `files/dao/mxml-3.0/mxml-index.c:581-652` | The range is permuted and ends up in order of names, and of values among equal names, to the character; nothing outside it moves, and the sort ends for any number of equal keys |
| `NodeSort.Partition` | `files/dao/mxml-3.0/mxml-index.c:592-638` | The two moving indices leave nothing greater than the pivot before its place and only greater nodes after it |
| `NodeIndex.SearchFirst` | `files/dao/mxml-3.0/mxml-index.c:154-231` | In a sorted index whose order fits the query (it names an element or no value, or the values rise) the modified binary search ends at the first match, or reports none |
| `NodeIndex.SearchMatches` | `files/dao/mxml-3.0/mxml-index.c:154-231` | For any query what it ends at is a match |
| `NodeIndex.ValueAloneCanMiss` | `files/dao/mxml-3.0/mxml-index.c:98-268` | A query by value only can miss the only match when names differ |
| `NodeIndex.ValueAloneExact` | `files/dao/mxml-3.0/mxml-index.c:98-268` | Queries by value alone find every match of every value if and only if the values rise along the index or it has at most two nodes |
| `NodeIndex.FallLoses` | `files/dao/mxml-3.0/mxml-index.c:154-231` | Where the value falls from one entry to the next, the searches for the two values cannot both arrive |
| `NodeIndex.OneNameRises` | `files/dao/mxml-3.0/mxml-index.c:499-530` | Nodes of one name in index order have rising values |
| `NodeIndex.OrderedFindsAll` | `files/dao/mxml-3.0/mxml-index.c:98-268` | Where the order fits the query, the run of matches found is the linear filter |
| `NodeIndex.FilterRearranged` | `files/dao/mxml-3.0/mxml-index.c:306-452` | Filtering does not depend on the order of the nodes |
| `NodeIndex.Index.constructor` | `files/dao/mxml-3.0/mxml-index.c:306-452` | The index holds the given nodes in that order, with the cursor at the start |
| `NodeIndex.Index.Enum` | `files/dao/mxml-3.0/mxml-index.c:68-85` | One node after the other, then NULL for good |
| `NodeIndex.Index.Reset` | `files/dao/mxml-3.0/mxml-index.c:464-491` | The cursor is back at the start and the first node is returned |
| `NodeIndex.Index.FindNext` | `files/dao/mxml-3.0/mxml-index.c:98-268` | From the start the entry the search ends at, later the entry at the cursor if it matches, and NULL for good after that, for any query |
| `NodeIndex.Index.FindAll` | `files/dao/mxml-3.0/mxml-index.c:98-491` | Reset and repeated finding return the run of matches from where the search ends, in order of names and values; where the order fits the query that is every matching node of the original list exactly once |
| `Rendezvous.StepKeepsInv` | `files/net/net_thread.c:103-212` | The invariant of the rendezvous is kept by every step of dispatcher and workers, as long as each broadcast notifies no more threads than are counted |
| `Rendezvous.SafeBetweenRounds` | `files/net/net_thread.c:103-570` | Over all runs whose broadcasts notify no more threads than are counted: between broadcasts the count is zero, every worker waits, and each has gone through exactly the batches it was notified of, once each and in order |
| `Rendezvous.BroadcastReturns` | `files/net/net_thread.c:524-548` | Whatever happened before, if no count is left over, nobody is on the way to count up and no more threads are notified than counted: when the broadcast returns every notified worker has finished exactly one pass over this batch, no other worker has run, and again no count is left over |
| `Rendezvous.OpenRoundMoves` | `files/net/net_thread.c:138-212` | While a round is open some step can be taken, also after rounds that returned too early: no wakeup is lost |
| `Rendezvous.WorkerGoesOn` | `files/net/net_thread.c:175-190` | In every state a worker has exactly one next step: nothing of what it might do is cut off |
| `Rendezvous.DispatcherGoesOn` | `files/net/net_thread.c:524-548` | In every state the dispatcher can go on in the order of its program: publish to any targets, notify them in any order, wait |
| `Rendezvous.RoundEnds` | `files/net/net_thread.c:103-570` | After any run whatever, every round is finite without spurious wakeups, and a run that is stuck has returned from the broadcast |
| `Rendezvous.RunKeepsSane` | `files/net/net_thread.c:103-212` | What this needs is kept by every run, counted or not: no worker sleeps through a notification, and the counts there and on the way are enough for what the dispatcher awaits |
| `Rendezvous.UncountedThreadIsLeftBehind` | `files/net/net_thread.c:534-546` | Between any two broadcasts, with fewer threads counted than notified or with counts left over, there is for each target a run that returns while that worker has not moved |
| `Rendezvous.WaitsForAllIffCounted` | `files/net/net_thread.c:534-546` | Between any two broadcasts of any run from the start, the next one waits for all its targets in every continuation, spurious wakeups included, if and only if it has no targets, or at least as many threads are counted, no count is left over and nobody is on the way to count up |
| `Rendezvous.ShortRoundSpoilsTheNext` | `files/net/net_thread.c:138-175` | Two workers, one counted: after a broadcast to both and the late pass of the second, a broadcast to the first alone returns before it has seen the batch |
| `PacketWalker.FindNextHeader` | `files/net/net_thread.c:327-344` | The first of 8, 16, 24 and 32 at which the bytes 0x51 0x57 stand, or -1 |
| `PacketWalker.NextMarkExact` | `files/net/net_thread.c:327-344` | The function that the walk is defined with looks at exactly these two bytes at exactly these places |
| `PacketWalker.DataSendPackage` | `files/net/net_thread.c:393-433` | The loop offers the packets and returns the value that the recursive walk defines |
| `PacketWalker.WalkOffersPackets` | `files/net/net_thread.c:393-433` | On a vector of packets (0x51 0x57, a length of 24 to 2048 in the fifth and sixth byte), of gaps up to 32 bytes in which no multiple of 8 looks like that, and of a short tail, exactly the packets are offered, in order and inside the vector, and the result is the length less the bytes of failed packets; sends take a whole packet or nothing |
| `PacketWalker.LayoutIsLocal` | `files/net/net_thread.c:327-433` | On such a vector the walk depends on no byte outside it, whatever the sends return |
| `PacketWalker.WalkAnyMemory` | `files/net/net_thread.c:393-433` | In any memory, with such sends: which packets are offered does not depend on the sends; the result is the length less the failed bytes where less than a header is left, and otherwise the place where the walk stopped less the failed bytes |
| `PacketWalker.OffersInside` | `files/net/net_thread.c:393-433` | In any memory the offers lie inside the vector exactly if the last packet the walk comes to ends inside it |
| `PacketWalker.MarkBehindIsOffered` | `files/net/net_thread.c:393-433` | 24 bytes without a mark and a mark behind them: the walk offers the bytes behind the vector |
| `PacketWalker.Statistics.SendVecEntry` | `files/net/net_thread.c:475-504` | NULL and empty vectors and a missing client give -1 and count nothing; otherwise the key is charged with the length, and what the walker returns is what the two counters are credited with |
| `PacketWalker.CreditIsLength` | `files/net/net_thread.c:475-504` | On such a vector the counters together grow by exactly its length, the error counter by the failed bytes |
| `PacketWalker.CreditExact` | `files/net/net_thread.c:475-504` | For any memory the counters together grow by the length exactly if the failed bytes are at most the length, where less than a header was left, and otherwise exactly if the place where the walk stopped, less the failed bytes, is at most the length |
| `PacketWalker.LongPacketIsNotCredited` | `files/net/net_thread.c:475-504` | A header that promises more than the vector has, and a failed send: nothing is credited |

## Left out

- JsonText.RoundTrip: numbers are texts of at most 25 number characters; the doubles that `strtod` and `sprintf` make of them, saturation to `int`, locales, NaN and infinity are not modelled.
- JsonNumber.AcceptedIsNumber: `strtod` is foreign code; on the alphabet the parser collects it is modelled as taking the longest decimal number.
- JsonStandard.StandardAccepted: RFC 8259 also allows the escape of a single surrogate, which the parser rejects (`JsonEscape.LiteralExact`); of longer numbers the parser reads the first 63 characters.
- PacketWalker.Statistics.SendVecEntry: a NULL context, which the code dereferences before it tests for it, is not modelled.
- Unicode.ParseHex4: digits that are not hexadecimal give 0 and the text is accepted as code point 0, as in the code; no rejection is claimed.
- JsonParser.ParseWithOpts: failing allocations and the freeing of a partial tree after an error are not modelled.
- JsonPrinter.PrintBuffer.PrintValue: NULL strings, raw items and failing allocations are not modelled; a number's text has at most 25 characters, so that the refusal in PrintNumber never comes up.
- JsonPrinter.PrintBuffered: a first size of 0 is covered only where `realloc` is available, since the other route copies a byte of the old buffer.
- JsonTree.Item.AddItemToArray: the item has to be without siblings and separate from the tree, as the code takes for granted.
- JsonTree.Item.DetachItemViaPointer: the item, if any, is a child of the parent, as the code takes for granted.
- JsonTree.Item.ReplaceItemViaPointer: the replaced item is unlinked; that it is freed afterwards is not modelled, nor are reference items and constant names.
- JsonTree.Item.Compare: for two inconsistent trees that share items it is bounded from both sides, by equality and by equal abstract values, but not decided; a number's double is a parameter, the reading of its text as a real; names are C strings.
- NodeIndex.Index.constructor: `mxmlFindElement` is not part of this model; the nodes it collects are given.
- Bitmap.BitmapWeight: bitmaps of 0 bits are excluded.
- Bitmap.ShiftRight: a shift by all bits of a bitmap that fills its last word is excluded, as ShiftRightInRange explains.
- Rendezvous.BroadcastReturns: waits that time out, threads that start or exit during a round, and several channels sharing one count are not modelled.
- PacketWalker.WalkOffersPackets: the socket is a function from the number of the send to its result; partial sends are covered by DataSendPackage and LayoutIsLocal only.
- PacketWalker.WalkAnyMemory: vectors shorter than a header are excluded; the walk returns 0 for them.
- Sizes and counts are unbounded integers apart from the limits the printer tests against INT_MAX; words are 64 bits wide.
- `cJSON_Minify`, allocation hooks, the create functions and the type predicates.
- The rotates, single-bit operations, and the bitwise and relational bitmap operations, which would only add easy members.
- `get_send_bytes_by_type_ex`, sockets, thread creation and cancellation, and the arithmetic of the timed wait.
- The hash map, memory pool, thread slots, configuration tables, register files, servers and command-line tools.
