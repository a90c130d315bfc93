# Fuxedo: fielded buffers, expressions, transactions

Dafny models of the parts of Fuxedo that carry its data and its protocols, with proofs of what they keep.

* `FieldSeq`, `Records`, `Fbfr32`, `Bulk`, `Join`: the FML32 fielded buffer. `Fbfr32` is a class over a real byte
  array and a table of type offsets. Its invariant says that the records tile the used bytes, that they are sorted by
  id, and that each offset is where the first record of its type starts. Its content is a sorted sequence of fields,
  which is the same as a map from ids to value lists. Each operation is proved to make exactly the content it should.
* `Scanning`, `Decimal`: the scanner both text readers rest on, and decimal numbers.
* `Expr`, `ExprGrammar`, `ExprParser`: the boolean expression compiler. The grammar reads operands and operators into
  a chain and says which tree the precedence table makes of it (the weakest, last operator is the root); the parser
  climbs precedences and inserts opcodes in front of operands, and is proved to produce the prefix encoding of that
  tree.
* `Symbols`, `Samples`: the characters of the texts, and whole texts with what becomes of them.
* `AstTree`: the block a flat tree is written into, which is doubled at most once for each piece of data. `Escapes`: the
  escapes of both text readers.
* `ExprPrint`, `ExprBack`: the printer of flat trees, what compiled trees are made of, and for which of them compiling
  their text gives the tree back.
* `ExprMeaning`, `ExprLaws`, `ExprEval`: what an expression is worth over a fielded buffer, the laws of each operator by
  its name, and the evaluator of flat trees.
* `TextForm`: the text form of nested buffers, its printer and its reader.
* `Transactions`, `TwoPhase`, `Demarcation`, `TxCalls`: the table of transactions, two-phase commit driven by replies in
  any order (chapter 6 "State Tables" of the X/Open XA specification gives the calls their meaning), the states of a
  thread with its nested suspend guards, and the calls that commit and roll back, in both control modes.
* `Replies`: call descriptors and replies that come out of order. `Services`, `ServiceCache`: the shared advertisement
  table and the cache of it.
* `Base64` (section 4 of RFC 4648) and `Checksum` (section 8 of RFC 1952): the two codecs, on bit vectors.

I/O, clocks and other processes are parameters: the text of a file is a byte sequence, the outcome of a send or of an
XA call and the messages of a reply queue are given to the method, other processes are steps. The field table is a pair
of maps. Doubles are eight bytes whose arithmetic, text and conversion are functions the machine provides, and so are
regular expressions.

Where the code does something other than its comments or its documentation say, the model follows the code:

* `erase` reads the type of the erased record after the bytes moved, so it sees the next record. `EraseAsWritten`,
  `DelAsWritten`, `DelAllAsWritten` and `RemoveAsWritten` say exactly when the offsets still agree, `EraseBreaksOffsets`
  gives a buffer in which they do not. `Erase`, `Del`, `DelAll`, `Proj` and `XDelete` use the intended removal.
* The first loop of `join` keeps counting after a deletion; with two surplus occurrences of a field it never ends
  (`DropSurplus`, `NeverThrough`).
* The block a compiled expression is written into is doubled only once for a string that does not fit, so a long literal
  is written past it. `Compile` says exactly for which texts (`Insert`, `LiteralRoom`, `LiteralOnRight`, `LongLiteral`).
* A string literal may hold a NUL, and the evaluator and the printer take it for the end of the string (`LeafEndsRight`,
  `NulCutsOff`).
* The printer of expressions does not escape strings and cannot write negative numbers (`PrintsBack`).
* A string field converted for a comparison stands in a buffer that the next conversion overwrites. `Boolev` says exactly
  when overwritten memory is read, which comes out right only by luck, as when both texts are the same; it always is when
  two string fields that are there are compared (`CompareTexts`, `TwoTextFieldsClash`).
* A suspend guard inside another one resumes the transaction before the outer one ends (`RunGuard`).
* In chained mode the end of the association already begins the next transaction, before the groups are asked to prepare,
  and the end of the call begins another one over it. The first is never ended; and when it cannot be begun, nobody is
  told anything about the transaction that was to be committed (`TxCommit`, `ChainedLeavesOneOpen`).
* A descriptor that comes round to a call that is still open takes its place (`Allocate`).
* Printed bytes from 128 on get eight hexadecimal digits of which the reader takes two, and a backslash is not escaped;
  only the character 0xFF survives, because one byte of what is read is taken. A CARRAY read from its text gains a NUL
  (`BytesReadBack`, `RoundTrip`). A second buffer in the same file loses its first byte (`ReadTwo`).
* The base64 decoder does not look behind the first sign of padding, nor at the bits that stand for no byte
  (`OnlyCanonicalReadsBack`).

## Model

| member | source | states |
|---|---|---|
| FieldSeq.ScanFindsTheRun | src/fbfr32.h:317-328 | In a sorted sequence, occurrence `oc` of an id found by looking at the fields one after the other is the `oc`-th field of the run of that id, and is not found exactly when there are not that many. |
| FieldSeq.PutValues | src/fbfr32.h:160-248 | Storing one occurrence keeps the sequence sorted, replaces that occurrence or adds it last, and leaves the values of every other id alone. |
| FieldSeq.FillValues | src/fbfr32.h:172-175 | Gap filling adds exactly the missing number of default values behind those that are there, and nothing else. |
| FieldSeq.OverlayValues | src/fbfr32.h:559-563 | After update each id has the source values first and then what the destination had beyond them. |
| FieldSeq.OverlayIdempotent | src/fbfr32.h:559-563 | Updating from the same source a second time changes nothing. |
| FieldSeq.OverlayPresentValues | src/fbfr32.h:565-572 | After ojoin each id has as many values as before, those with a number the source has too being the source's. |
| FieldSeq.AppendValues | src/fbfr32.h:619-629 | After concat each id has the destination values followed by the source values. |
| FieldSeq.KeepDropValues | src/fbfr32.h:521-557 | Projection leaves all values of the listed ids and none of the others; deletion leaves the complement. |
| FieldSeq.KeepIsDropOfTheRest | src/fbfr32.h:521-557 | Keeping one set of ids and dropping its complement leave the same fields in the same order. |
| FieldSeq.CutOneValues | src/fbfr32.h:464-475 | Removing one occurrence renumbers the later ones of its id and nothing else. |
| FieldSeq.CutAllIsDrop | src/fbfr32.h:477-491 | Removing the run of an id removes all its occurrences and no other field. |
| FieldSeq.SortedByValues | src/fbfr32.h:818-857 | A sorted field sequence is determined by its values per id: the map from ids to value lists is the whole content. |
| Records.ChainIsUnique | src/fbfr32.h:758-779 | The bytes of a buffer can be read as a chain of records in one way only. |
| Records.RecordAt | src/fbfr32.h:758-779 | Record `k` of a chain starts where the ones before it end, and its length found from its own bytes leads to the next one. |
| Records.SizeIsOffset | src/fbfr32.h:694-708 | In a sorted chain the bytes of all records below a type bound end exactly where the first record of that type starts. |
| Records.StoredAgain | src/fbfr32.h:735-756 | Storing a value that was read from a buffer stores the same value. |
| Records.StoredMeans | src/fbfr32.h:735-756 | What is stored for a value, type by type: the 2, 8, 1, 4 or 8 bytes of a number or character, a string up to and with its NUL, as many bytes as given, a nested buffer as far as it is used with that as its size. |
| Records.RecSizes | src/fbfr32.h:183-207 | The size of a record by its type: 8 or 16 bytes, or the next multiple of 8 behind the length and the bytes. |
| Records.RecordBytes | src/fbfr32.h:43-84 | Where id, length and value stand in a record. |
| Bytes.LowByteFirst | src/fbfr32.h:43-84 | Ids and lengths are stored with the low byte first. |
| FieldedBuffer.Fbfr32.Make | src/fbfr32.h:97-107 | A length that does not hold the header is refused; otherwise the new buffer satisfies the invariant and is empty. |
| FieldedBuffer.Fbfr32.Init | src/fbfr32.h:97-107 | Initialising empties the buffer and makes every offset agree. |
| FieldedBuffer.Fbfr32.LowerBound | src/fbfr32.h:835-842 | Binary search over fixed-size records gives the number of records with a smaller id. |
| FieldedBuffer.Fbfr32.WhereFixed | src/fbfr32.h:835-857 | The look-up for 8-byte and 16-byte records finds the occurrence, or the first record of the type with a larger id. |
| FieldedBuffer.Fbfr32.WhereN | src/fbfr32.h:859-881 | The walk over variable-length records finds the occurrence, or the first record of the type with a larger id. |
| FieldedBuffer.Fbfr32.Where | src/fbfr32.h:818-833 | For every storage class the look-up through the type offsets gives that position. |
| FieldedBuffer.Fbfr32.Find | src/fbfr32.h:317-328 | Find gives the same answer as a linear scan of the whole record chain: occurrence `oc` of the id, or nothing. |
| FieldedBuffer.Fbfr32.FindLast | src/fbfr32.h:330-347 | The last occurrence and its number, or nothing when there is none. |
| FieldedBuffer.Fbfr32.Pres | src/fbfr32.h:349-355 | An occurrence is present exactly when its number is below the count. |
| FieldedBuffer.Fbfr32.Occur | src/fbfr32.h:357-365 | The count of an id is the number of its values. |
| FieldedBuffer.Fbfr32.Next | src/fbfr32.h:367-406 | The cursor moves to the very next record and is named by its id and occurrence; a value that is too long is refused but the cursor has moved; a value is copied only when both a place and a length for it are given. |
| FieldedBuffer.NextVisitsAll | src/fbfr32.h:367-406 | From the key of any field the cursor goes to the very next one. |
| FieldedBuffer.Fbfr32.Visit | src/fbfr32.h:367-406 | Called from id 0 until it says that there is no more, next visits as many fields as there are, the k-th call the k-th field: every (id, occurrence) there is, once, in sorted order, whatever length the caller gives. |
| FieldedBuffer.Fbfr32.Shift | src/fbfr32.h:710-715 | The used length and every offset behind the type move by the same amount, no other offset does. |
| FieldedBuffer.Fbfr32.OpenGap | src/fbfr32.h:209-223 | The moves for grow, shrink and insert keep every byte in front of and behind the gap. |
| FieldedBuffer.Fbfr32.Store | src/fbfr32.h:194-248 | Storing an occurrence keeps the invariant (tiling, order, offsets) or, without space, changes nothing. |
| FieldedBuffer.Fbfr32.FillGap | src/fbfr32.h:172-175 | Gap filling terminates, adds default occurrences up to the wanted number, and stops early only when no more fit. |
| FieldedBuffer.DefaultIsBlank | src/fbfr32.h:38-41 | A default occurrence is as many zero bytes as the number or character has, an empty string, or no bytes. |
| FieldedBuffer.Fbfr32.Chg | src/fbfr32.h:160-248 | A change keeps the invariant and makes the content exactly the old one with the gap filled and the occurrence stored, if that fits; otherwise as many default occurrences were added as fit, and nothing at all when no gap was open. Every other record keeps its bytes, padding included. |
| FieldedBuffer.ChangedValues | src/fbfr32.h:160-248 | What the content after a change is, id by id: the occurrence replaced, or blank values (zeros, the empty string, no bytes) and then the new one; a negative number adds one at the end; other ids keep their values. |
| FieldedBuffer.Fbfr32.Erase | src/fbfr32.h:661-669 | The intended removal: the type is read before the bytes move; the run of records is gone and the invariant holds. |
| FieldedBuffer.Fbfr32.EraseAsWritten | src/fbfr32.h:661-669 | The removal as coded, which reads the type after the bytes moved: the records are right, and the offsets agree if and only if no record follows or the next one is of the same type. |
| FieldedBuffer.EraseBreaksOffsets | src/fbfr32.h:661-669 | A buffer with a SHORT and a LONG field, in which the removal of the SHORT field breaks the invariant. |
| FieldedBuffer.Fbfr32.Del | src/fbfr32.h:464-475 | Exactly one occurrence goes, later ones are renumbered, every other id keeps its values, all offsets agree again; a missing one changes nothing. |
| FieldedBuffer.Fbfr32.DelAsWritten | src/fbfr32.h:464-475 | The same with the removal as coded: the invariant survives exactly under the condition of that removal. |
| FieldedBuffer.Fbfr32.DelAll | src/fbfr32.h:477-491 | With the intended removal: all occurrences of an id go, no other field changes, all offsets agree again. |
| FieldedBuffer.Fbfr32.DelAllAsWritten | src/fbfr32.h:477-491 | With the removal as coded: the same records are left, and the invariant survives if and only if no field follows or the next one is of the same type. |
| BufferBulk.Update | src/fbfr32.h:559-563 | Each occurrence of the source is stored under its own number; no gap ever opens; stopping early happens only when the next one does not fit. |
| BufferBulk.OJoin | src/fbfr32.h:565-572 | Exactly the occurrences both buffers have are overwritten; stopping early happens only for lack of space. |
| BufferBulk.Concat | src/fbfr32.h:619-629 | The one check in front is enough: the loop never runs out of space, the content is the destination followed by the source per id, and the used length is the sum. |
| BufferBulk.ProjCpy | src/fbfr32.h:534-544 | The copy holds exactly the listed fields in order, up to the first that does not fit, and succeeds exactly when all fit. |
| BufferBulk.Proj | src/fbfr32.h:546-557 | With the intended removal: deleting while iterating terminates and leaves exactly the listed fields in order, the same content that projcpy gives. |
| BufferBulk.XDelete | src/fbfr32.h:521-532 | With the intended removal: deleting while iterating terminates and leaves exactly the fields that are not listed. |
| BufferBulk.RemoveAsWritten | src/fbfr32.h:521-557 | Both with the removal as coded: every removal leaves the offsets right, and then exactly the fields that should be there, if and only if each field that goes is the last one or is followed by a field of its own type. |
| BufferJoin.DropSurplus | src/fbfr32.h:601-608 | The first loop of join, with the removal as coded, comes to its end with the offsets right, after one turn a record, if and only if no field has two occurrences more than the source and behind each field with one more comes a field of its type or none; then each field has as many as both have. |
| BufferJoin.NeverThrough | src/fbfr32.h:601-608 | A field with two occurrences and none in the source: the first loop of join is not through after any number of turns. |
| BufferJoin.StaysStuck | src/fbfr32.h:582-588 | Once a second surplus occurrence is met, every further turn leaves the loop where it is. |
| BufferJoin.Join | src/fbfr32.h:601-617 | When it ends, each field holds the source values of the occurrences that both buffers had; it stops early only where the next value does not fit. |
| Scanning.SpanIs | src/basic_parser.h:38-50 | A stretch of symbols that satisfy a test, and stops, is taken whole. |
| Scanning.Scanner.Hex | src/basic_parser.h:58-75 | Two hexadecimal digits give one byte, one digit alone is an error, none takes nothing. |
| Scanning.Scanner.UnsignedNumber | src/basic_parser.h:77-87 | Digits, at most one dot, digits; the longest such text is taken. |
| Scanning.Scanner.Name | src/basic_parser.h:91-98 | A letter and then letters, digits and underscores; the longest such text is taken. |
| Scanning.Scanner.Space | src/basic_parser.h:100-107 | All white space in front is taken. |
| Scanning.NumberEndMeans | src/basic_parser.h:77-87 | Where a number ends: behind digits, one dot if there is one, and digits. |
| Scanning.NameEndMeans | src/basic_parser.h:91-98 | Where a name ends: in front of the first symbol that is no letter, digit or underscore. |
| Symbols.SymbolClasses | src/basic_parser.h:38-107 | Which characters are digits, letters, name symbols, hexadecimal digits, white space, printable, flags and symbols of operators. |
| Symbols.HexDigits | src/basic_parser.h:58-75 | The hexadecimal digits and their values, small and capital. |
| Symbols.SpecialSymbols | src/basic_parser.h:38-107 | The single characters the readers and printers use. |
| Decimal.NumberOfDigits | src/fbfr32.h:431-438 | The number printed in decimal digits is read back from them. |
| Decimal.AtolOfText | src/fml32.cpp:409-417 | What `%ld` prints, `atol` reads back, sign included. |
| Decimal.AtolReads | src/fml32.cpp:409-417 | What `atol` reads: white space, a sign, digits, and nothing behind them. |
| Symbols.DecimalTexts | src/fml32.cpp:409-417 | A negative number in decimal, byte for byte. |
| Expressions.Climb | src/expr.cpp:177-228 | One round of precedence climbing, which gives the first operator all tighter operators that follow, builds the tree in which the weakest, last operator is at the root. |
| Expressions.ClimbWithin | src/expr.cpp:177-228 | The same in the middle of a chain bounded by a precedence, with well-typedness of the whole carried to the parts. |
| Expressions.LeftAssociative | src/expr.cpp:177-228 | Operators of one precedence associate to the left. |
| Expressions.WeakestIsRoot | src/expr.cpp:146-159 | An operator that binds weaker than all others of a chain is the root of its tree. |
| Expressions.Tight | src/expr.cpp:186-193 | How many operators in front bind at least as tightly as a bound, and that the next one does not. |
| Expressions.Weakest | src/expr.cpp:146-159 | The last of the weakest operators of a chain, by the precedence table. |
| Expressions.ClassesOrder | src/expr.cpp:146-159 | The precedence table by the names of the operators: seven classes, each looser than the one before it. |
| Expressions.LoosestIsRoot | src/expr.cpp:146-159 | In every chain the last operator of the loosest class is the root, by the names of the operators. |
| Expressions.TwoOperators | src/expr.cpp:177-228 | Of two operators, by name, the one of the tighter class takes the operand between them, and the first one of two of a class. |
| Symbols.ShortOperators | src/expr.cpp:50-53 | How the operators of one symbol are written. |
| Symbols.LongOperators | src/expr.cpp:50-53 | How the operators of two symbols are written. |
| ExprGrammar.RestRead | src/expr.cpp:334-349 | Reading an operator and putting it back leaves what is ahead the same. |
| ExprGrammar.WhichOfText | src/expr.cpp:146-167 | Each operator is found by its own text. |
| ExprGrammar.FaultStep | src/expr.cpp:177-228 | Which error a chain has, one round of climbing at a time: that of an operand, or a syntax error when an operation that is complete in front of it does not take its operands. |
| Samples.BareName | src/expr.cpp:251-285 | A field name alone stands for its first occurrence. |
| Samples.PlusIsIgnored | src/expr.cpp:230-250 | A plus in front of an operand changes nothing. |
| Samples.BadNames | src/expr.cpp:251-285 | A name that is not in the table and a field no expression may use are errors of their own. |
| Samples.NumberLeaves | src/expr.cpp:286-300 | Digits are a long or, when too large, an error; with a dot they are a double. |
| Samples.ProductInSum | src/expr.cpp:169-228 | The text 1+2*3 is the sum of 1 and a product. |
| ExprParser.ExpressionParser.String | src/expr.cpp:315-332 | The loop reads a string literal with its escapes, or fails, as the grammar does. |
| FlatTrees.AstTree.Insert | src/expr.cpp:77-85 | Inserted data stands in front of what was there, and everything else is kept; it stays inside the block if and only if it fits the free space before the block is doubled or after it is doubled once. |
| FlatTrees.SmallFits | src/expr.cpp:77-85 | Data of at most 1024 bytes a piece always stays inside, in any number and order. |
| FlatTrees.LiteralRoom | src/expr.cpp:77-109 | A string literal alone stays inside if and only if it has at most 2042 bytes. |
| FlatTrees.LiteralOnRight | src/expr.cpp:77-109 | Compared with a number, a literal on the left stays inside up to 2042 bytes, on the right only up to 2033. |
| FlatTrees.PiecesOfTree | src/expr.cpp:77-109 | The pieces that are inserted for a tree have together as many bytes as its encoding. |
| ExprParser.ExpressionParser.Leaf | src/expr.cpp:251-300 | A field with its subscript, a number or a string is appended as one leaf, or the error the text has is given. |
| ExprParser.ExpressionParser.ParsePrimary | src/expr.cpp:230-313 | Appends exactly the encoding of the operand that the text has there. |
| ExprParser.ExpressionParser.Combine | src/expr.cpp:212-227 | The two encodings at the end of the tree become one with the opcode in front, or a match is refused exactly when it does not take its operands. |
| ExprParser.ExpressionParser.ParseBinop | src/expr.cpp:177-228 | From any position with an operator possibly put back: the tree at the left operand becomes the encoding of the tree the precedence table defines for the operators that bind tightly enough, and what is ahead is the rest of the chain. |
| ExprParser.ExpressionParser.ParseExpr | src/expr.cpp:169-175 | Appends exactly the encoding of the tree that the grammar and the precedence table define, or fails when they do. |
| ExprParser.Compile | src/expr.cpp:363-382 | A text that the grammar reads is written without going past the block if and only if the pieces of its tree fit, each with one doubling at most; any text is whose string literals all have less than 1024 bytes. Then it compiles if and only if the grammar reads it, and to a header and the prefix encoding of its tree; otherwise the error is the one of the grammar. |
| Samples.FlatOperands | src/expr.cpp:77-109 | The bytes of operands in a flat tree. |
| Samples.Opcodes | src/expr.cpp:22-48 | The numbers of the opcodes. |
| Samples.FinishedTree | src/expr.cpp:66-75 | The header of a finished tree. |
| ExprBack.LongLiteral | src/expr.cpp:77-85 | A literal of 3000 letters: the grammar reads it, and its bytes do not fit the block. |
| ExprPrint.EncodingAt | src/expr.cpp:384-426 | The parts of an encoded tree are found where each routine over the flat form looks for them. |
| ExprPrint.Boolpr | src/expr.cpp:384-426 | Printing the flat bytes gives the text of the tree they encode, and ends just behind that encoding. |
| ExprPrint.PrintTree | src/expr.cpp:428-433 | The text of a finished tree. |
| ExprPrint.PrintedIsRead | src/expr.cpp:384-426 | Reading the printed text of a sayable tree gives back the same tree, for every nesting, to the end of the text. |
| Samples.PrintedTrees | src/expr.cpp:384-426 | Three trees and their printed text, byte for byte. |
| ExprBack.PrintsBack | src/expr.cpp:384-426 | The printed text of a well-typed tree without doubles is read as that tree if and only if it holds no negative number, no string with a quote or a backslash, and no negative occurrence. |
| ExprBack.CompiledPrintsBack | src/expr.cpp:169-426 | What a text without NUL and without doubles compiles to is printed as a text that compiles to the same tree if and only if no string holds a quote or a backslash and no occurrence wrapped to a negative number. |
| ExprBack.QuoteDoesNotPrintBack | src/expr.cpp:384-426 | A string that is one quote does not print back. |
| ExprBack.CompiledHasNoNul | src/expr.cpp:315-332 | A text with no NUL in it, neither raw nor as an escape, compiles to a tree with no NUL in a string. |
| ExprBack.LeafEndsRight | src/expr.cpp:590-612 | The evaluator and the printer find the end of a string leaf if and only if the string holds no NUL. |
| ExprBack.NulCutsOff | src/expr.cpp:590-612 | A text that compiles to a comparison of a string with a NUL inside: behind that NUL stands no opcode, where the right operand is looked for. |
| ExprMeaning.AnyOccurrence | src/expr.cpp:650-669 | `F[?] op r` is true if and only if some occurrence of F satisfies the comparison. |
| ExprLaws.Arithmetic | src/expr.cpp:630-640 | Sums, differences and products of what counts as longs are worth those numbers exactly when they fit a long. |
| ExprLaws.Dividing | src/expr.cpp:632-636 | Quotient and remainder, taken from the meanings of the two operators, make the dividend; the remainder is smaller than the divisor and has the sign of the dividend; neither has a worth for a zero or where the quotient does not fit. |
| ExprLaws.Logic | src/expr.cpp:645-648 | Logical and is 1 exactly when both are nonzero, or exactly when one is. |
| ExprLaws.ExclusiveOr | src/expr.cpp:642-644 | Bit by bit, an exclusive or is set where the operands differ. |
| ExprLaws.Unaries | src/expr.cpp:614-623 | The negative, 1 for a zero, and the number that sums with the operand to -1. |
| ExprLaws.NumbersCompare | src/expr.cpp:548-569 | The six comparisons of numbers, and of a text of a field with a number. |
| ExprLaws.TextsCompare | src/expr.cpp:548-569 | The six comparisons of texts, and of a literal with anything: by the first difference, a beginning first. |
| ExprLaws.Matching | src/expr.cpp:570-586 | A match is worth 1 exactly when the machine finds the pattern at position 0, and its negation otherwise; a bad pattern is unsupported. |
| ExprLaws.DoubleArithmetic | src/expr.cpp:499-507 | With a double on one side the arithmetic and logic of doubles are used on both sides as doubles. |
| ExprLaws.DoublesCompare | src/expr.cpp:548-569 | And the comparisons of doubles, unless one side is a literal. |
| ExprLaws.DoublesCutOff | src/expr.cpp:634-644 | Remainder and exclusive or take doubles cut off to longs. |
| ExprLaws.FieldWorth | src/expr.cpp:509-546 | What a field is worth, type by type, and what one that is not there is worth. |
| ExprLaws.FieldNumbers | src/expr.cpp:509-546 | The number in a SHORT or LONG field: signed, low byte first. |
| ExprMeaning.QuotientAndRemainder | src/expr.cpp:632-636 | Division and remainder round towards zero and fit together. |
| ExprMeaning.StrCmpAt | src/expr.cpp:552-556 | The order of texts is decided by the first difference, a prefix coming first. |
| ExprMeaning.StrCmpSwaps | src/expr.cpp:552-556 | Comparing texts the other way round turns the sign. |
| ExprMeaning.OneOrder | src/expr.cpp:548-569 | Of two values that are not doubles exactly one of less, equal and greater holds, and the other comparisons are their complements. |
| ExprMeaning.MatchOrNot | src/expr.cpp:570-586 | A match and its negation are complements, and fail together. |
| ExprMeaning.XorLongTwice | src/expr.cpp:642-644 | Exclusive or of longs is a long and undoes itself. |
| ExprMeaning.MeaningInRange | src/expr.cpp:590-679 | Whatever an expression is worth as a number fits a long. |
| ExprMeaning.CompareIsWorthLong | src/expr.cpp:548-588 | Every comparison that has a worth is 0 or 1. |
| ExprEval.FieldValue | src/expr.cpp:509-546 | A field is worth its converted value, 0 or the empty string when it is not there; a text lives in the shared conversion buffer. |
| ExprEval.Boolev | src/expr.cpp:590-679 | Evaluating the flat bytes gives the meaning of the tree they encode and ends just behind that encoding, if no operator holds a field's text while its other operand converts a field; otherwise it has no defined worth. |
| ExprEval.BoolevAny | src/expr.cpp:660-668 | The loop over occurrences stops at the first that satisfies the comparison, and loses a text on the right as soon as an occurrence is converted. |
| ExprEval.Fboolev | src/expr.cpp:681-692 | The condition is the truth of the meaning of the compiled tree. |
| ExprEval.Ffloatev | src/expr.cpp:694-705 | The number is the meaning of the compiled tree as a double. |
| ExprEval.CompiledIsEvaluable | src/expr.cpp:169-356 | Whatever a text without a written NUL compiles to, if the field table holds 32-bit ids, meets what the evaluator needs. |
| ExprEval.CompareTexts | src/expr.cpp:590-679 | An operator with a string field on its left and a field on its right: the evaluator has a worth for it only when one of them is missing, and then the one the expression means. |
| ExprEval.TwoTextFieldsClash | src/fml32.cpp:373-376 | Two string fields that are there and differ: the comparison has a meaning, and the evaluator has lost the left text when it compares. |
| TextForm.Fprint | src/fbfr32.h:418-462 | Prints each field in a line of its own, nested buffers one tab deeper, a blank line at the end. |
| TextForm.PrintBytes | src/fbfr32.h:651-659 | Printable bytes as they are, others escaped. |
| Symbols.ByteIsShown | src/fbfr32.h:651-659 | Which bytes are printed as they are, and the digits of the others. |
| Symbols.NamelessField | src/fbfr32.h:419-428 | How a field without a name is printed. |
| Samples.PrintedBuffer | src/fbfr32.h:418-462 | A nested buffer and its printed text, byte for byte. |
| TextForm.ExtReader.Value | src/extreader.h:97-108 | Reads a value up to the end of the line, taking escapes. |
| TextForm.ExtReader.ParseLine | src/extreader.h:35-88 | Reads a line into one more field, a nested buffer with the lines that follow it, or the blank line that ends a buffer; or gives the error. |
| TextForm.ExtReader.ParseBuf | src/extreader.h:28-33 | Reads the lines of a buffer up to its blank line. |
| TextForm.Extread | src/fml32.cpp:567-578 | Reads one buffer from a file, and takes one more byte from it than the buffer has. |
| TextForm.BytesReadBack | src/fbfr32.h:651-659 | The printed form of a byte sequence is read back as that sequence if and only if it holds no backslash and no byte from 128 on. |
| TextForm.UnfaithfulStrings | src/fbfr32.h:651-659 | A backslash alone is lost, one in front of a hexadecimal digit is refused, and a byte from 128 on is read as seven bytes. |
| Samples.ConvertedTexts | src/fml32.cpp:409-430 | What the text of a value becomes in a field of each type. |
| TextForm.PrintedIsRead | src/extreader.h:16-88 | Reading what was printed gives each field, at every depth, what its own text stands for, or fails when one text stands for nothing. |
| TextForm.RoundTrip | src/extreader.h:28-107 | Reading the printed form gives back the same buffer if and only if no string or byte array in it has a backslash or a byte from 128 on, every byte array has its only NUL at its end, every character is plain or 0xFF, and every floating point number survives its text. |
| TextForm.ReadTwo | src/basic_parser.h:33-34 | Two buffers in one file: the first is read as if it were alone, the second, short of its first byte, is never what was printed: it is an end of file when it was empty and an error when no field has the name without its first letter. |
| Transactions.TransactionTable.Start | src/trx.h:137-154 | Takes the first free slot or a new one, clears it and enters the starting group; a full table is an error that changes nothing. |
| Transactions.TransactionTable.Join | src/trx.h:120-127 | Marks one group of one transaction and nothing else; a wrong index is an error. |
| Transactions.TransactionTable.HasJoined | src/trx.h:129-135 | Tells whether a group is marked. |
| Transactions.TransactionTable.FindXid | src/trx.h:156-166 | The first entry with the identifier, or an error. |
| Transactions.TransactionTable.End | src/trx.h:175-179 | Frees the slot and changes no other. |
| Transactions.StartedIsFound | src/trx.h:144-166 | A started transaction is found at its slot with one member, identifiers stay unique, other transactions keep their members. |
| Transactions.JoinAddsOne | src/trx.h:120-127 | A join adds one member to one transaction. |
| Transactions.EndForgets | src/trx.h:175-179 | An ended transaction has no members, others keep theirs. |
| TwoPhase.Collect | src/tx.cpp:215-225 | The branches of a commit are the groups that joined, in order. |
| TwoPhase.EveryGroup | src/tx.cpp:215-225 | Every group that joined has a branch, and no other group. |
| TwoPhase.SendAll | src/tx.cpp:456-473 | Requests go to the groups up to the first that cannot be sent, which is marked failed; those behind it are left as they were. |
| TwoPhase.Receive | src/tx.cpp:475-487 | In whatever order replies and time-outs come: if all were asked, the wait ends when and only when every branch has its answer; a branch that could not be asked keeps its failure. For all replies, where the wait ends and with which results. |
| TwoPhase.Command | src/tx.cpp:452-488 | One phase: which requests were sent, and whose answers the results are. |
| TwoPhase.Decide | src/tx.cpp:239-251 | Commit exactly when every result is yes or read-only, and who takes part in the second phase. |
| TwoPhase.Votes | src/tx.cpp:239-251 | The results say yes if and only if every group was asked and answered that it can commit or has nothing to. |
| TwoPhase.TwoPhases | src/tx.cpp:235-264 | Commit is told to a group only if every group voted yes, and only to groups that voted to commit; commit and rollback are never both told; with every request sent each group that has something to do hears the decision; the return code is the decision. For all sends and replies, what is told and how the call ends. |
| TxCalls.TxBegin | src/tx.cpp:161-170 | A new transaction takes a slot in the table and the thread starts an association with it, or a full table throws. |
| TxCalls.ChangeState | src/tx.cpp:183-198 | After a success the thread is outside; in chained mode it is in a new transaction if that can be started. |
| TxCalls.TxCommit | src/tx.cpp:228-265 | Agreement for every group that joined the transaction, chained or not; no phase is run when the end of the association does not come out well, in chained mode because the next transaction cannot be started, or the transaction is not in the table; what the caller hears, and where the thread and the table are left. |
| TxCalls.SameBranches | src/tx.cpp:215-225 | The transaction begun when the association ends does not change who takes part in the one that is committed. |
| TxCalls.ChainedLeavesOneOpen | src/tx.cpp:183-198 | A commit in chained mode begins two transactions; the first stays in the table with the group of the thread in it. |
| TxCalls.TxRollback | src/tx.cpp:267-279 | No group is asked to prepare; rollback is told up to the first group that cannot be reached; in chained mode two transactions are begun here too. |
| Demarcation.TxThread.EndAssociation | src/tx.cpp:281-311 | The state, identifier, return code and calls after an association is ended or suspended, protocol errors included. |
| Demarcation.TxThread.StartAssociation | src/tx.cpp:339-378 | The state, identifier, return code and calls after an association is started, joined or resumed. |
| Demarcation.TxThread.SuspendInPlace | src/tx.cpp:315-326 | Suspending without taking the identifier leaves the thread transactional. |
| Demarcation.States | src/tx.cpp:43-60 | Which states are inside and outside a transaction, and which one a thread is in after it enters or leaves one. |
| Demarcation.Codes | include/xa.h:99-145 | The numbers of the return codes. |
| Demarcation.TxThread.RunGuard | src/client.cpp:29-42 | However its calls are answered: how many calls a guard makes and whether it leaves the thread active; the identifier and control mode stay; suspends reach the resource manager only while active, resumes only while suspended; with resumes that succeed, a guard inside a suspended one leaves the thread active before the outer one ends. |
| Demarcation.TxThread.RunGuards | src/client.cpp:356-377 | The same for guards one after the other at every depth. |
| Demarcation.RunInTransaction | src/client.cpp:356-377 | With calls that succeed, guards end in the state and identifier they began with, and the resource manager saw suspend, resume, suspend, resume, to the end, once for each innermost suspending guard. |
| Demarcation.OneTurnEach | src/client.cpp:29-42 | With calls that succeed an active thread is suspended and resumed once for each suspending guard that has none inside; an inactive one is resumed by the first of them. |
| Demarcation.StrictTurns | src/tx.cpp:281-361 | Successful calls that lead back to the start strictly alternate. |
| Replies.Client.Allocate | src/resp.h:31-45 | A new descriptor while at most 1024 are open, in a cycle that leaves out 0; one call more is open unless the descriptor came round to a call that is, whose place it takes. |
| Replies.Client.Call | src/client.cpp:70-113 | Unless the next descriptor is still open: a call that was sent is open under a descriptor no other open call has, and one that was not leaves no trace. |
| Replies.Client.GetReply | src/client.cpp:115-186 | A buffered reply is delivered at once. Otherwise the first message that is the reply or ends the wait decides, and the messages up to it are taken; every other reply among them is kept under its own descriptor; a time-out loses nothing. |
| Replies.Client.GetAny | src/client.cpp:115-186 | The buffered reply with the smallest descriptor is delivered, and otherwise the next message decides; nothing else is lost. |
| Replies.Run | src/client.cpp:70-186 | In any run of calls, answers in any order, time-outs and waits, descriptors coming round included, every call that was made is either delivered once or still open, and every reply that was sent is delivered once, under its descriptor and as it was sent, or waits. A run ends early only when a descriptor comes round to a call that is still open, which takes as many steps as there are descriptors. |
| Replies.Client.Answer | src/client.cpp:148-150 | A reply that is sent is received once, whatever was received before. |
| Replies.Client.SendUnblock | src/client.cpp:153-161 | The message that ends a wait changes nothing of what was received. |
| Services.Mib.FindAdvertisement | src/mib.cpp:132-141 | The first place of an advertisement, or none. |
| Services.Mib.FindService | src/mib.cpp:295-305 | The first service of a name, or none. |
| Services.Mib.MakeService | src/mib.cpp:357-379 | A new service at the end with revision 0, or the error of a duplicate or a full table. |
| Services.Mib.Advertise | src/mib.cpp:143-171 | One advertisement more in the first vacant slot or at the end, none there twice, and the revision of its service counted; it is an error exactly when it is there already or there is no room, and then no advertisement changes; readers see the change announced. |
| Services.Mib.Unadvertise | src/mib.cpp:173-189 | Exactly one advertisement less and the revision counted, or the error, which changes nothing. |
| Services.PutAnnounced | src/mib.cpp:159-170 | Writing one slot changes the queues of one service only, the one whose revision grows. |
| Services.QueuesAre | src/svcrepo.h:49-64 | The queues of a service are those of its advertisements, one each in the order of the table, with the identifier of the queue and the group of the server. |
| Services.QueueIsAdvertised | src/svcrepo.h:66-81 | A queue that is asked for is among them exactly when it is advertised. |
| ServiceCache.StaysCoherent | src/svcrepo.h:49-64 | A cached entry that is as new as the table holds the table's queues, whatever is advertised or unadvertised in between. |
| ServiceCache.Repository.GetEntry | src/svcrepo.h:33-47 | The entry of a service, made empty at revision 0 the first time, which is coherent. |
| ServiceCache.Repository.Refresh | src/svcrepo.h:49-64 | Afterwards the cached queues are those of a scan of the advertisement table. |
| ServiceCache.Repository.LoadBalance | src/svcrepo.h:66-81 | The next queue in turn, or the first queue of a group, or none. |
| ServiceCache.Repository.GetQueue | src/svcrepo.h:26-30 | The queue of an advertisement of the service in the table as it is now, of the group if one is asked for; none only when there is no such advertisement. |
| ServiceCache.EachOnce | src/svcrepo.h:70-72 | As many turns as there are places take each place once. |
| ServiceCache.CallInTurn | src/svcrepo.h:70-72 | Consecutive balanced calls while the table stays the same take the queues in turn; as many calls as there are queues give each queue once. |
| ServiceCache.Run | src/svcrepo.h:26-81 | In every run of advertise, unadvertise and look-up steps the cache stays coherent and no advertisement is there twice; each step changes the table as it should, and each look-up is answered with a queue of the service, or the first of the group, in the table as it stands at that step, and with none only when there is none. |
| Base64.Encode | src/base64.cpp:8-50 | Writes exactly the encoding and not a byte behind it, or reports too little space and writes nothing. |
| Base64.EncodedLength | src/misc.h:126-133 | The encoding has the number of characters that base64chars says. |
| Base64.Decode | src/base64.cpp:52-128 | Writes what the blocks stand for, never behind three bytes a block, whatever the outcome; too little space, a wrong length and a bad character are reported in that order, the first two before anything is written. |
| Base64.RoundTrip | src/base64.cpp:8-128 | Decoding the encoding of any byte sequence gives it back. |
| Base64.Alphabet | src/base64.cpp:8-50 | The alphabet, letter by letter, both ways. |
| Base64.BlockBits | src/base64.cpp:20-45 | Which bits of three bytes are in which of the four characters. |
| Base64.OnlyCanonicalReadsBack | src/base64.cpp:52-128 | A text that is accepted is the encoding of what it stands for if and only if it is in canonical form: letters, full padding at the end, and zeros in the bits that stand for no byte. |
| Base64.LooseTexts | src/base64.cpp:104-121 | Texts with bits set that stand for no byte, or with a letter behind the first sign of padding, are accepted. |
| Checksum.Crc32b | src/fbfr32.h:25-36 | The loops compute the checksum. |
| Checksum.StepIsInvertible | src/fbfr32.h:30-33 | A bit step has an inverse on both sides: it is a bijection of the 32-bit state. |
| Checksum.GeneratorTerms | src/fbfr32.h:25-36 | The polynomial has the terms of the generator. |
| Checksum.CarriesItsSum | src/fbfr32.h:25-36 | Data followed by four bytes leaves the known remainder if and only if these are its checksum, low byte first. |
| Checksum.OneByteDetected | src/fbfr32.h:25-36 | Inputs of equal length that differ in one byte have different checksums. |
| Checksum.BurstDetected | src/fbfr32.h:25-36 | Inputs that differ only within four bytes next to each other have different checksums. |

## Left out

- FieldedBuffer.Fbfr32.Init: the length argument, which gives a used buffer another size; a new one takes it in `Make`.
- FieldedBuffer.Fbfr32.Chg: a gap in front of a nested FML32 occurrence is excluded, because the zeros it would be filled with are too short to be a buffer; a null value, which means deletion, is `Del`; values are at most 0xFFFFFFF8 bytes long, beyond which the padded length wraps in 32 bits.
- FieldedBuffer.Fbfr32.FillGap: nested FML32 ids, whose default value the zeros would have to be, for the same reason.
- FieldedBuffer.Fbfr32.EraseAsWritten: what look-ups return once the offsets do not agree any more.
- BufferBulk.Proj: the list of ids is a set; sorting it and searching it are not modelled, and so for the other operations that take one.
- BufferBulk.Update: source and destination share no memory, here and in the other operations with two buffers.
- BufferJoin.DropSurplus: the occurrence counter does not wrap at 32 bits, which it would after that many turns of a loop that never ends.
- ExprParser.Compile: row and column of an error; whether a text with an error in it goes past the block before the error is found, unless its literals are short; the two reserved bytes of the tree; what happens to memory behind the block.
- ExprBack.PrintsBack: doubles, whose text loses digits; strings with a NUL, which are cut short before they are printed.
- ExprEval.Boolev: strings in the tree hold no NUL, which `CompiledIsEvaluable` derives from the text; behind such a NUL the code reads other bytes as a tree; what the evaluator reads from overwritten memory is undefined here; a number whose text fills the 64-byte buffer it is printed into for a comparison has no defined worth.
- TextForm.PrintedIsRead: the text of a double is what the machine prints; NUL bytes in the text that is read; running out of space when the result is copied.
- TextForm.ExtReader.ParseLine: the reader adds to a field sequence with the operation that `Chg` is proved to perform, not to the bytes of a buffer.
- TxCalls.TxCommit: the transaction log, which is not written; one reply for each request; the identifiers of new transactions are given.
- TwoPhase.Receive: a reply without an answer in it ends the call with an exception, as `get` throws; what the caller does then is not modelled.
- Demarcation.TxThread.RunGuard: calls made between the guards other than guards.
- Replies.Client.Call: what becomes of replies after a descriptor was taken from a call that is still open; tpcancel, after which a late reply re-creates the descriptor.
- Services.Mib.Advertise: the lock makes each step atomic, although one caller of unadvertise does not take it; revisions do not wrap at 64 bits.
- ServiceCache.Repository.GetQueue: the queue identifiers of the table do not change while a cache holds them.
- findocc, get, getalloc, cpy, read and write of buffers; message queues, semaphores, shared memory; setjmp dispatch; command line tools and configuration readers.
