# callSrv: a verified model

callSrv is a small call centre: a REST interface registers agents, FreeSWITCH events move their
calls, and a polling loop hands waiting callers to agents in turn. It carries the headers of
libpqxx, whose template code parses SQL arrays and ranges, numbers placeholders, joins lists and
retries transactions. This project models both and proves what they promise.

**SQL arrays** (`ArrayGrammar`, `ArrayMachine`, `ArrayRoundTrip`, `ArrayAcceptance`, `ArrayIndex`,
`ArrayErrors`, `ArrayUnambiguous`, `SqlArrays`, `Scanners`). The array class reads a text like
`{{1,"a,b"},{NULL,x}}` in one pass, with one counter per dimension, and learns the shape as the
first rows close. `ArrayGrammar` says, without a parser, what the text of a rectangular array is: a
tree of bare and double-quoted fields whose rows all have the same sizes, where only the innermost
rows may be empty. It is a grammar over a `Format`: the separator, and which fields the element
type's conversion takes. `ArrayMachine` is the scan as a state machine, and `SqlArrays` the class
itself, with its wrapping dimension counter, its unset sizes and its loop. The main results, for
every format: parsing the text of any such tree, of any number of dimensions, gives back its shape
and its fields in row-major order; parsing succeeds on those texts and on no others, and fails with
each error exactly on the texts that have what the error says (`ArrayErrors`); the number of
elements is the product of the sizes; and the index tuples within bounds map one to one, in order,
onto the storage.

**Writing arrays** (`ArrayWriter`, `ArraySizes`, `ArrayReadBack`). A container, of elements of any
type or of containers, is written straight into the caller's buffer. Elements go between quotes,
each first put at the buffer's end and escaped from there, unless their type needs no quotes. What
is written is proved to read back, in exactly the cases that `WriteThenParse` lists. One is missed:
between nested containers the writer puts a comma, while the reader wants the elements' own
separator there, so an array of arrays of a type with another separator reads back only if no
container holds two others (`OneSeparatorBySize`). Between quotes, and for containers of
containers, the text always fits the size that `size_buffer` asks for. It need not for a container
of elements without quotes: the size has no room for the separators, and too little for a null.
`SizeSuffices` and `SizePromise` say exactly when it is enough. One null asks for six bytes and
takes seven; an array of `bool` fits only if at most one is `false` and none is null.

**Ranges** (`Ranges`, `RangeLaws`, `RangeText`, `RangeReader`). Two ranges that are both clearly
empty are equal, whatever their bounds, so the algebra holds modulo that equality: it is a
congruence, containment is a partial order and `&` is its greatest lower bound. Over every order
these notions are sound for the values in a range; over a dense order without ends they are exact;
over the integers the ways in which `empty()`, containment and equality miss what the values say
are listed exactly. Which texts are read as a range, and with which error the others are refused, is characterised
too. A range written as text
reads back as itself when its bounds need no quoting, in particular always over `int`. It does
not in general: the writer never quotes, so the range `["a,b",)` over strings does not survive.
For types whose values and texts match one to one, survival is characterised exactly.

**Call distribution** (`Dispatch`, `DispatchRegistry`, `DispatchTrace`, `DispatchPolling`,
`DispatchFlags`, `CallServices`). Each request, event or poll is one atomic step on the shared list of agents. Over
every run: dns stay distinct, so the list searched from the front is a map from dn to record; an
agent's status and call are what the latest events about its dn say, and its flag whether it was handed
out since it was last cleared; nobody is handed out twice without a clearing of all flags, or a
new login, in between; with all agents ready the polls go round the list. A poll can hand out nobody although an agent is ready: the exact condition is
`PollNull`, and `ReadyYetNull` is an example.

**Three loops** (`Placeholders`, `SeparatedList`, `Transactor`, on `Decimal` and `StringTraits`).
The placeholder text is counted up in place; the join budgets its buffer before it writes; the
retry loop decides by exception class, and the order of its catch clauses, what to retry.

Where the code and its comments differ, the model follows the code. The array parser means to
refuse every empty field, but recognises one by a comma; `EmptyFieldsRefused` says exactly for
which formats that is enough, and shows `{;""}` read as two elements where it is not. The comment on `contains`
admits that `[0,9]` is not found to contain `[0,10)`; `IntegerContainment` says when that happens.
The placeholder buffer leaves no room for a sign that a signed counter type asks for, so that such
a type's conversion may refuse a carry (`RefusedExactlyIfSigned`). The comment in
`check_dims` admits that surplus closing braces get past it; the main loop is proved to reject them.

## Reading guide

A C++ exception is a `Failure` or `None`; the array class's template parameters (dimensions,
separator, and element type with its conversion) are ordinary values; `std::size_t` counters are natural numbers, wrapped
explicitly where the code relies on wrapping and proved not to wrap elsewhere. The three cases of
the array parser's loop are methods of their own (`OpenBrace`, `CloseBrace`, `AddElement`), called
from the loop in `Parse`. The text is in a single-byte encoding, and for ranges in ASCII.

## Model

| member | source | states |
|---|---|---|
| `Scanners.ScanDoubleQuotedString` | libpqxx/include/pqxx/internal/array-composite.hxx:20-78 | finds the position after the closing quote of a double-quoted field, or that there is none |
| `Scanners.QuotedEndOfUnits` | libpqxx/include/pqxx/internal/array-composite.hxx:20-78 | any quoted field not followed by another quote is scanned whole: escapes and doubled quotes inside it never end it |
| `Scanners.QuotedEndIsUnits` | libpqxx/include/pqxx/internal/array-composite.hxx:20-78 | whatever the scan accepts is a well-formed quoted field |
| `Scanners.ParseDoubleQuotedString` | libpqxx/include/pqxx/internal/array-composite.hxx:85-118 | removes the quotes and escapes, never reading past the closing quote |
| `Scanners.UnescapedOfUnits` | libpqxx/include/pqxx/internal/array-composite.hxx:85-118 | the result is, character by character, what the field's units stand for |
| `Scanners.ScanUnquotedString` | libpqxx/include/pqxx/internal/array-composite.hxx:131-143 | stops at the first stop character or the end of the input |
| `Scanners.UnquotedEndUnique` | libpqxx/include/pqxx/internal/array-composite.hxx:121-143 | text without a stop character, ended by one, is one field |
| `ArrayMachine.CheckDims` | libpqxx/include/pqxx/array.hxx:170-201 | passes exactly the texts that are long enough and begin and end with the right number of braces |
| `ArrayMachine.FieldEnd` | libpqxx/include/pqxx/array.hxx:233-259 | after a field or row, continues at a closing brace, at the end, or past one separator that starts another item, and nowhere else |
| `ArrayMachine.Step` | libpqxx/include/pqxx/array.hxx:315-422 | one turn of the loop never reads an unset size, keeps the loop's invariant and consumes input |
| `ArrayMachine.SizesAreWrittenOnce` | libpqxx/include/pqxx/array.hxx:345-356 | over any run, a settled size is never overwritten and no counter outgrows the input read |
| `ArrayMachine.InternalSafety` | libpqxx/include/pqxx/array.hxx:293-427 | in every reachable state the code's own assertions hold, a size is written when unset and compared when set, and the scan takes at most one step a character |
| `ArrayRoundTrip.FieldOfToken` | libpqxx/include/pqxx/array.hxx:373-417 | a legal field, bare or quoted, is scanned whole and read as the element it stands for, if the element type takes it; only a bare NULL is null |
| `ArrayRoundTrip.FieldRefused` | libpqxx/include/pqxx/array.hxx:373-417 | a field that the element type does not take is refused as an unexpected null if it is a bare NULL, and else with the conversion's error |
| `ArrayRoundTrip.RoundTrip` | libpqxx/include/pqxx/array.hxx:281-430 | with any separator and element type, parsing the text of any rectangular array of any dimension gives back its sizes and, in row-major order, its elements |
| `ArrayAcceptance.ExactAcceptance` | libpqxx/include/pqxx/array.hxx:161-430 | with any separator and element type, parsing succeeds on the texts of rectangular arrays of that dimension and on no other input |
| `ArrayAcceptance.AcceptText` | libpqxx/include/pqxx/array.hxx:281-430 | every accepted text is the text of a tree with the parsed sizes and elements |
| `ArrayAcceptance.ParsedSize` | libpqxx/include/pqxx/array.hxx:123-127 | the number of elements is the product of the sizes, only the last of which can be zero, and is at most one more than the number of separators |
| `ArrayErrors.FailsExactly` | libpqxx/include/pqxx/array.hxx:161-430 | parsing fails with an error exactly when the text has what the error says: in its outer braces, or at a place up to which it is the text of some open rows or of a whole array |
| `ArrayErrors.StepFailsExactly` | libpqxx/include/pqxx/array.hxx:315-422 | one turn of the loop throws exactly what is wrong where the text then stands |
| `ArrayErrors.NullRefused` | libpqxx/include/pqxx/array.hxx:402-413 | `{NULL}` read for a type without nulls is an unexpected null |
| `ArrayGrammar.SizeLaw` | libpqxx/include/pqxx/array.hxx:123-127 | a tree of a given shape has as many fields as the product of its sizes |
| `ArrayGrammar.SeparatorsBoundElements` | libpqxx/include/pqxx/array.hxx:267-278 | there is a separator between any two fields, across any nesting |
| `ArrayAcceptance.EmptyFieldsRefused` | libpqxx/include/pqxx/array.hxx:376 | no accepted array has an empty bare field exactly when the separator is the comma or the element type has no empty text; an input where one is accepted |
| `ArrayUnambiguous.RenderInjective` | libpqxx/include/pqxx/array.hxx:281-430 | a text is that of at most one array, so what parsing returns is the only way to read it |
| `ArrayIndex.CheckBounds` | libpqxx/include/pqxx/array.hxx:473-489 | passes exactly the index tuples within bounds, and otherwise names the first dimension that is not |
| `ArrayIndex.AddIndexIsOffset` | libpqxx/include/pqxx/array.hxx:443-468 | with the precomputed factors, the offset of an index tuple is the number of elements before it |
| `ArrayIndex.OffsetOfIndexOf` | libpqxx/include/pqxx/array.hxx:443-468 | every place in storage has an index tuple |
| `ArrayIndex.IndexOfOffset` | libpqxx/include/pqxx/array.hxx:443-468 | no two index tuples share a place |
| `ArrayIndex.RowMajor` | libpqxx/include/pqxx/array.hxx:48-50 | storage order is lexicographic order of the index tuples |
| `ArrayIndex.RoundTripAt` | libpqxx/include/pqxx/array.hxx:87-92 | the array parsed from a tree's text has at each index tuple the field that the tree has there |
| `ArrayIndex.FactorsFit` | libpqxx/include/pqxx/array.hxx:433-441 | no factor exceeds the size of the array, so none wraps around |
| `SqlArrays.SqlArray.CheckDimensions` | libpqxx/include/pqxx/array.hxx:170-201 | the two loops over the braces decide what `CheckDims` specifies |
| `SqlArrays.SqlArray.EstimateElements` | libpqxx/include/pqxx/array.hxx:267-278 | one more than the number of times that the separator occurs |
| `SqlArrays.SqlArray.Parse` | libpqxx/include/pqxx/array.hxx:280-430 | fails exactly when the text has what an error says, and with that error; on success holds the sizes and the conversions of the elements that the machine found, indexable without overflow, in the space reserved |
| `SqlArrays.SqlArray.InitFactors` | libpqxx/include/pqxx/array.hxx:433-441 | each factor is the size of one item of its dimension, in machine words |
| `SqlArrays.SqlArray.At` | libpqxx/include/pqxx/array.hxx:87-92 | gives the element exactly for index tuples within bounds and never misses the storage |
| `ArrayWriter.WriteQuoted` | libpqxx/include/pqxx/internal/conversions.hxx:1061-1079 | the element's text quoted and escaped, although the buffer's end holds the part not yet escaped |
| `ArrayWriter.ContainerIntoBuf` | libpqxx/include/pqxx/internal/conversions.hxx:1031-1092 | throws exactly when the buffer is smaller than the size asked for, or an element without quotes refuses the space left for it; otherwise writes the whole text and a zero, inside the buffer unless the elements are without quotes |
| `ArrayWriter.DoubleRoomServes` | libpqxx/include/pqxx/internal/conversions.hxx:1050-1054 | a container inside another is given space enough for no element of it to be refused |
| `ArraySizes.SizeSuffices` | libpqxx/include/pqxx/internal/conversions.hxx:1094-1117 | the text and its zero fit the size asked for, except for unquoted elements, and for those exactly when what their texts leave of their own sizes pays for the separators |
| `ArraySizes.SizePromise` | libpqxx/include/pqxx/internal/conversions.hxx:1031-1117 | exactly when a buffer of the size asked for is neither refused nor left, for conversions that refuse what does not fit and for those that insist on their estimates |
| `ArraySizes.QuotedBudget` | libpqxx/include/pqxx/internal/conversions.hxx:1105-1116 | just what is asked for an item between quotes: in the worst case one byte more than it takes |
| `ArraySizes.NullNeedsMore` | libpqxx/include/pqxx/internal/conversions.hxx:1096-1104 | a single null of a type without quotes asks for six bytes and takes seven |
| `ArraySizes.SmallestIntsNeedMore` | libpqxx/include/pqxx/internal/conversions.hxx:1096-1104 | two smallest `int`s ask for 25 bytes and take 26 |
| `ArraySizes.BoolsKept` | libpqxx/include/pqxx/internal/conversions.hxx:1096-1104 | an array of `bool` is written within its size exactly if at most one is `false` and none is null |
| `ArrayReadBack.WriteThenParse` | libpqxx/include/pqxx/internal/conversions.hxx:1031-1092 | exactly when a written container can be read back as an array of so many dimensions; it then has the container's sizes and its elements' texts |
| `ArrayReadBack.ItemUnique` | libpqxx/include/pqxx/internal/conversions.hxx:1045-1085 | a written item is read as itself or not at all, and not at all where its separators differ from the reader's |
| `ArrayReadBack.OneSeparatorBySize` | libpqxx/include/pqxx/internal/conversions.hxx:1080 | the separators agree exactly when they are commas or no container holds two others |
| `RangeLaws.Refused` | libpqxx/include/pqxx/range.hxx:251-269 | the constructor refuses limits exactly when no value is between them even with both included; over a dense order the bounds with no value between them are those it refuses and the clearly empty ones |
| `RangeLaws.EqualIsEquivalence` | libpqxx/include/pqxx/range.hxx:271-279 | equality of ranges, coarser than that of their bounds, is an equivalence |
| `RangeLaws.MeetCongruent` | libpqxx/include/pqxx/range.hxx:342-378 | equal operands have equal intersections |
| `RangeLaws.MeetLaws` | libpqxx/include/pqxx/range.hxx:322-378 | modulo equality, containment is a partial order and intersection its greatest lower bound, idempotent, commutative and associative |
| `RangeLaws.MeetBounds` | libpqxx/include/pqxx/range.hxx:342-378 | an intersection has bounds of its operands, unless even with all limits included they share no value; then it is the default range |
| `RangeLaws.Sound` | libpqxx/include/pqxx/range.hxx:271-378 | over every order, the intersection holds exactly the common values, and emptiness, equality and containment mean what they say about values |
| `RangeLaws.Exact` | libpqxx/include/pqxx/range.hxx:271-326 | over a dense order without ends, a range is empty, equal to or contained in another exactly when its values say so |
| `RangeLaws.RealsAreDense` | libpqxx/include/pqxx/range.hxx:235-239 | the real numbers are such an order |
| `RangeLaws.IntegerEmptiness` | libpqxx/include/pqxx/range.hxx:292-308 | an integer range without values is not reported empty exactly when it is exclusive on both sides of two neighbours |
| `RangeLaws.ContainsByBounds` | libpqxx/include/pqxx/range.hxx:322-326 | containment, decided by an intersection, holds exactly when the other range is clearly empty or its bounds reach no further out |
| `RangeLaws.IntegerContainment` | libpqxx/include/pqxx/range.hxx:318-326 | over the integers containment holds exactly when the values are contained, but for the listed cases: a bound off by one, or a range that holds nothing without showing it |
| `RangeLaws.IntegerEquality` | libpqxx/include/pqxx/range.hxx:271-279 | exactly which ranges with the same integers are not equal |
| `RangeLaws.IntegerContainmentIncomplete` | libpqxx/include/pqxx/range.hxx:318-326 | the example of the code's comment: `[0,9]` is not found to contain or to equal `[0,10)` |
| `StringTraits.IntoBuf` | libpqxx/include/pqxx/strconv.hxx:189-197 | writes the text and a trailing zero from the start of the buffer, or throws and writes nothing |
| `StringTraits.StringContract` | libpqxx/include/pqxx/internal/conversions.hxx:596-626 | the conversions of strings keep the documented contract |
| `StringTraits.IntContract` | libpqxx/include/pqxx/internal/conversions.hxx:112-128 | the buffer size of an integer type holds every value's sign, digits and zero |
| `StringTraits.BoolContract` | libpqxx/include/pqxx/internal/conversions.hxx:248-266 | the conversions of `bool` keep it too |
| `RangeText.RangeIntoBuf` | libpqxx/include/pqxx/range.hxx:411-445 | writes `empty`, or the brackets that the inclusive bounds call for around the bounds' texts and a comma, and a zero, never outside the buffer; says exactly when it throws, which is never when given the size asked for |
| `RangeText.SizeIsTight` | libpqxx/include/pqxx/range.hxx:516-529 | no more is asked for than the text and its zero, and what the bounds ask for beyond theirs |
| `RangeReader.ParseCompositeField` | libpqxx/include/pqxx/internal/array-composite.hxx:180-262 | reads one field and the comma or closing bracket after it, an absent field as null |
| `RangeReader.FromString` | libpqxx/include/pqxx/range.hxx:447-514 | reads a range, or fails with an error, as its specification says, for every text |
| `RangeReader.ExactReading` | libpqxx/include/pqxx/range.hxx:447-514 | exactly which texts are read as a range and as which: the word `empty` in any case, and bracketed pairs of absent, bare or quoted bounds that convert and do not cross |
| `RangeReader.FailsExactly` | libpqxx/include/pqxx/range.hxx:447-514 | exactly which texts are refused and with which error: crossing bounds exactly for legal forms whose upper value is below the lower |
| `RangeReader.RoundTrip` | libpqxx/include/pqxx/range.hxx:411-514 | a range that is clearly empty or whose bounds need no quoting reads back equal to itself |
| `RangeReader.IntRoundTrip` | libpqxx/include/pqxx/range.hxx:411-514 | every range over `int` reads back equal to itself |
| `RangeReader.RoundTripExact` | libpqxx/include/pqxx/range.hxx:411-514 | where values and texts match one to one, a range survives exactly when it is clearly empty or both bounds need no quoting |
| `RangeReader.StringRoundTripFails` | libpqxx/include/pqxx/range.hxx:430-437 | over strings the range from "a,b" upwards is not read back |
| `Placeholders.Placeholder.constructor` | libpqxx/include/pqxx/params.hxx:212-216 | starts at `$1` |
| `Placeholders.Placeholder.Next` | libpqxx/include/pqxx/params.hxx:236-260 | counts up by one until the largest parameter number, keeping the text the canonical decimal of the count with its zero byte; fails otherwise exactly when a carry's conversion refuses the space, which an unsigned type's never does |
| `Placeholders.Placeholder.Get` | libpqxx/include/pqxx/params.hxx:222-233 | the dollar sign and the decimal of the current number |
| `Placeholders.DistinctTexts` | libpqxx/include/pqxx/params.hxx:194-204 | no two placeholders look the same |
| `Placeholders.RefusedExactlyIfSigned` | libpqxx/include/pqxx/params.hxx:243-252 | conversions that insist on the size they ask for refuse a carry exactly if the counter type is signed |
| `Placeholders.IntIsCounter` | libpqxx/include/pqxx/params.hxx:205-210 | `unsigned int`, the default, and `int` meet what the buffer size assumes |
| `Decimal.LastDigitBump` | libpqxx/include/pqxx/params.hxx:254-259 | unless a carry is due, the next number's text differs only in a last digit greater by one |
| `Decimal.DigitCount` | libpqxx/include/pqxx/params.hxx:272-280 | a number of digits suffices exactly for the numbers below that power of ten |
| `SeparatedList.SeparatedList` | libpqxx/include/pqxx/separated_list.hxx:44-79 | the values' texts with the separator between them, nothing for no values; no write runs out of the budgeted space |
| `SeparatedList.JoinedLength` | libpqxx/include/pqxx/separated_list.hxx:44-79 | the result is as long as the texts and one separator fewer than there are values |
| `SeparatedList.BudgetSurplus` | libpqxx/include/pqxx/separated_list.hxx:58-62 | the budget exceeds the result by what the values ask for beyond their texts, and one separator |
| `SeparatedList.WriteNext` | libpqxx/include/pqxx/separated_list.hxx:72-76 | given the space that separator and value ask for, both are appended and nothing is refused |
| `SeparatedList.TupleListIsJoined` | libpqxx/include/pqxx/separated_list.hxx:110-132 | the recursive tuple version gives the same text |
| `Transactor.Perform` | libpqxx/include/pqxx/transactor.hxx:99-149 | runs the callback at most `attempts` times, never again after an error that is in doubt, of unknown completion, a broken protocol or not recognised, and ends with the last run's outcome; the final throw is never reached |
| `Transactor.RetryableByClass` | libpqxx/include/pqxx/transactor.hxx:107-145 | the errors retried are the lost connections but those by a broken protocol, and the rollbacks but those of unknown completion |
| `Transactor.CaughtBy` | libpqxx/include/pqxx/except.hxx:80-707 | which exceptions each of the catch clauses takes, by inheritance |
| `Transactor.EndingIsDetermined` | libpqxx/include/pqxx/transactor.hxx:69-98 | the retry discipline leaves one number of runs and one ending |
| `Transactor.CommitsAtMostOnce` | libpqxx/include/pqxx/transactor.hxx:44-59 | if retryable errors mean not committed, the effect is committed at most once, by the last run |
| `DispatchRegistry.RunKeepsDistinct` | src/CRestfulServer.cpp:115-239 | over every run no two agents in the list have the same dn |
| `DispatchRegistry.StepRefines` | src/CRestfulServer.cpp:115-239 | each step does to the list what it does to a map from dn to record kept in order of registration |
| `DispatchRegistry.RunRefines` | src/CallService.cpp:233-292 | so does every run of requests, events and polls |
| `DispatchRegistry.LogoutRemoves` | src/CRestfulServer.cpp:146-170 | after a logout no agent with that dn is left |
| `DispatchTrace.TraceLaw` | src/CallService.cpp:233-292 | after every history an agent is listed exactly from its login to its logout, its status is that of the latest status change of its dn, and its call that of the latest channel created for it since, unless hung up |
| `DispatchPolling.PollHandsOut` | src/CallService.cpp:456-480 | a poll hands out the first ready agent not yet polled, after a sweep if all were polled, and changes only flags |
| `DispatchPolling.PollNull` | src/CallService.cpp:456-480 | exactly when a poll hands out nobody |
| `DispatchPolling.ReadyYetNull` | src/CallService.cpp:460-466 | an agent that is not ready and not polled keeps a ready one from its next turn |
| `DispatchPolling.NullStays` | src/CallService.cpp:383-401 | repeated polling after a null stays null |
| `DispatchPolling.Rotation` | src/CallService.cpp:456-480 | with all agents ready and all flags clear, the k-th poll hands out agent k modulo their number |
| `DispatchPolling.EveryoneServed` | src/CallService.cpp:456-480 | with all n agents ready, from any flags, each is handed out within 2n-1 polls |
| `DispatchPolling.NoDoubleHandOut` | src/CallService.cpp:456-480 | over every run, an agent handed out twice saw all flags cleared, or logged in again, in between |
| `DispatchPolling.HandedWasReady` | src/CallService.cpp:472-477 | whoever is handed out was ready |
| `DispatchFlags.FlagLaw` | src/CallService.cpp:456-480 | after every history an agent's flag is set exactly when it was handed out with neither a clearing of all flags nor a new login of its own since |
| `CallServices.CallService.Login` | src/CRestfulServer.cpp:115-145 | the listed agents become what a login makes of them |
| `CallServices.CallService.Logout` | src/CRestfulServer.cpp:146-170 | the agent is erased, or the request is answered with not found |
| `CallServices.CallService.SetReady` | src/CRestfulServer.cpp:171-193 | the agent with that dn becomes ready, all else stays |
| `CallServices.CallService.SetNotReady` | src/CRestfulServer.cpp:194-216 | the agent with that dn becomes not ready, all else stays |
| `CallServices.CallService.SetLeave` | src/CRestfulServer.cpp:217-239 | the agent with that dn is on leave, all else stays |
| `CallServices.CallService.ChannelCreate` | src/CallService.cpp:233-243 | the called agent is in the new call |
| `CallServices.CallService.ChannelHangupComplete` | src/CallService.cpp:259-292 | the called agent is ready and in no call |
| `CallServices.CallService.ResetAgent` | src/CallService.cpp:452-455 | that agent's flag is cleared, all else stays |
| `CallServices.CallService.GetAvailableAgent` | src/CallService.cpp:456-480 | hands out the agent that the poll's specification names, or null, and leaves the list as it says |

## Left out

- Array separators that are a brace, a double quote or a zero byte, and for the writer a letter of `NULL`: values that no array type uses.
- Element conversions that give the text of a quoted element without writing it to the buffer's end, where the model has them write it.
- Multi-byte encodings: the glyph scanners of other encodings are not modelled, and ranges, whose reader assumes UTF-8, are read from ASCII text.
- A backslash as the last character of the scanned text: the scanner states an assumption that is false there; the model follows what the loop then does, which is to find no closing quote.
- `array_parser`, whose steps are not part of this repository.
- Converting a range to another value type, and bounds that are null.
- The conversions of built-in types to and from text, which are in a compiled library: code that uses them is proved against their documented contract, and some instances are shown to keep it.
- Races on the agent list: the code takes no locks, so a request, event or poll is taken as one atomic step.
- Sockets, HTTP, JSON, WebSocket, PostgreSQL, curl and FreeSWITCH calls, logging and daemonising: a step starts from the dn, agent name and call identifier already extracted, and its answer is reduced to found or not found.
- Headers absent from an event: a missing destination or call identifier is not modelled.
- The rest of `acd_callback` after an agent is found: the loop ends there, so its later branches only ever see no agent. Only its repeated poll is modelled.
- `callbackfun`, an unused routing path, and `doService`, whose queue nothing fills.
