# Strings, lists, codecs, hashing and ARP

The repository holds three course projects. This project models their algorithmic core in Dafny and
proves what it is for:

* `Search`, `Pieces`, `Replace`, `Split`, `Stream` and `StreamSplit` model bstrlib: the substring
  search, the three ways of replacing in place, splitting and joining, and the buffered stream in
  front of a reader that may read short. `BStrings` has the string object that they change and
  `Bytes` the octets; `Wrappers` has values that may be missing.
* `Base64`, `UuCode`, `UuStream` and `Justify` model bstraux: two codecs with their decoders, the
  uudecoder behind a stream, and justification of text. `Base64Laws` and `UuLaws` say what the
  codecs mean without their functions: tables, digits (`Digits`), and places.
* `ListNodes`, `ListSort` and `SimcList` model simclist: a doubly linked list with sentinels, a
  cached middle pointer, a pool of spare nodes, an iterator that locks the list, and a quicksort
  that moves data between fixed nodes.
* `Sha1Spec` is SHA-1 on a whole message, after FIPS PUB 180-1; `Sha1` is the incremental
  implementation of the router project. `Sha1Laws` says what that definition computes, by arithmetic
  and bits, and has the example of the standard.
* `Arp` is the router's ARP request queue as a state machine with a clock, and `ArpQueue` the linked
  list that implements it.
* `Checksum` is the Internet checksum with the header that uses it.
* `TwoMutex` is the exercise in which two threads take two locks in opposite orders.

Objects that the source changes in place are classes with the same fields; their methods are proved
against functions on sequences, and the theorems are about those functions. A ghost field holds the
abstract value where that is shorter (`nodes` and `elems` of a list, `message` of a hash context,
`state` of the request queue); what the queue sends is a real field, `wire`.

## What turned out

* `list_delete_range` on the whole list follows null: the number of elements left, less one, wraps
  round before it is halved (`SimcList.MidMoveLands`). Every other range works.
* `bsplitstr` skips one position behind each match, so that a doubled separator is not seen twice
  (`Split.SplitStrExactly`). Joining restores the text all the same.
* `bjoin` sizes the result for an empty list at one octet less the separator: a separator of one
  octet leaves a length of minus one, a longer one makes the allocation fail (`Split.BJoin`).
* The uudecoder never clears the tail of an input whose last line lacks its end of line, and
  delivers it again at every call, so that `bUuDecodeEx` goes on until it has INT_MAX octets
  (`UuStream.DecodeEx`, `UuStream.UnterminatedLineNeverEnds`).
* The base64 decoder skips whatever is no symbol, but not between the two paddings at the end
  (`Base64.SkippedOctet`).
* The two threads can only deadlock if there are at least four entries (`TwoMutex.DeadlockExactly`).
* The checksum is right up to 2^32, and the router refuses the all-zero form of a valid checksum
  (`Checksum.ChecksumVerifiesExactly`, `Checksum.AcceptsExactly`).
* The header comment of `sr_arpcache.h` asks for a try every second; with whole seconds on the clock
  the test in the code, more than one second, fires every two (`Arp.BroadcastsTwoApart`,
  `Arp.SweepSendsExactly`, `Arp.EveryOtherSecond`). The model follows the code.

## Model

| member | source | states |
|---|---|---|
| Search.IsFirstUnique | cs233-win-15-amsadowski-nolanwinkler/chirc/src/bstrlib.c:1023-1099 | there is only one such position |
| Search.Instr | cs233-win-15-amsadowski-nolanwinkler/chirc/src/bstrlib.c:1023-1099 | the result is the least position from pos on at which b2 occurs in b1, and BSTR_ERR exactly if there is none or pos is negative |
| Search.Scan | cs233-win-15-amsadowski-nolanwinkler/chirc/src/bstrlib.c:1043-1098 | the two-way unrolled loop, with its restarts and its tail case, finds that least position for patterns of two octets and more |
| Search.RestartSkipsNothing | cs233-win-15-amsadowski-nolanwinkler/chirc/src/bstrlib.c:1084-1098 | if the pattern does not embed as a subsequence before e, no occurrence that starts after base ends by e: stepping back by the octets matched loses nothing |
| Search.ScanRestarts | cs233-win-15-amsadowski-nolanwinkler/chirc/src/bstrlib.c:1084-1092 | a failed contiguity test moves the start strictly forward and keeps everything known about the part left behind |
| Search.NothingAtTheEnd | cs233-win-15-amsadowski-nolanwinkler/chirc/src/bstrlib.c:1095-1098 | when the text runs out in the middle of a greedy match, no occurrence is left, wherever it would start |
| Replace.FindReplace | cs233-win-15-amsadowski-nolanwinkler/chirc/src/bstrlib.c:1554-1692 | whatever strategy the lengths select, the string becomes the text with the leftmost non-overlapping occurrences from pos on replaced; errors and an out-of-range pos leave it as it was |
| Replace.ReplaceSameLength | cs233-win-15-amsadowski-nolanwinkler/chirc/src/bstrlib.c:1587-1595 | searching a buffer that is being overwritten still replaces exactly the occurrences in the original text |
| Replace.ReplaceShrinking | cs233-win-15-amsadowski-nolanwinkler/chirc/src/bstrlib.c:1597-1621 | the same with the gaps closed up in the same pass |
| Replace.ReplaceExpanding | cs233-win-15-amsadowski-nolanwinkler/chirc/src/bstrlib.c:1637-1692 | the same with the occurrences recorded first and the segments moved apart from right to left |
| Replace.MoveSegments | cs233-win-15-amsadowski-nolanwinkler/chirc/src/bstrlib.c:1668-1684 | after the moves from right to left every recorded segment stands where it belongs, although source and target overlap |
| Replace.FindHits | cs233-win-15-amsadowski-nolanwinkler/chirc/src/bstrlib.c:1641-1663 | the recorded positions are exactly the leftmost non-overlapping occurrences, and the length to add is their number times the difference |
| Replace.ReplacedLength | cs233-win-15-amsadowski-nolanwinkler/chirc/src/bstrlib.c:1554-1692 | the length changes by the number of occurrences times the difference of the lengths |
| Replace.ReplacedBySelf | cs233-win-15-amsadowski-nolanwinkler/chirc/src/bstrlib.c:1554-1692 | replacing a string by itself changes nothing |
| Pieces.CutIsCut | cs233-win-15-amsadowski-nolanwinkler/chirc/src/bstrlib.c:1554-1692 | cutting at the leftmost occurrences gives pieces that join to the text and meet the separator first behind each piece |
| Pieces.CutUnique | cs233-win-15-amsadowski-nolanwinkler/chirc/src/bstrlib.c:1554-1692 | those conditions determine the pieces, so that they define what replacing and splitting mean |
| Split.SplitByChar | cs233-win-15-amsadowski-nolanwinkler/chirc/src/bstrlib.c:2521-2537 | the callback gets exactly the entries between the characters, with their offsets, until it answers with a negative number, which is then returned |
| Split.SplitByAny | cs233-win-15-amsadowski-nolanwinkler/chirc/src/bstrlib.c:2555-2581 | the same for any set of characters, and for an empty set the whole rest as one entry |
| Split.SplitByStr | cs233-win-15-amsadowski-nolanwinkler/chirc/src/bstrlib.c:2599-2625 | the callback gets the pieces of the scan that goes on behind each match, until it stops it |
| Split.DeliveredIs | cs233-win-15-amsadowski-nolanwinkler/chirc/src/bstrlib.c:2521-2625 | the calls are the pieces up to the first whose answer is negative |
| Split.AnswerIs | cs233-win-15-amsadowski-nolanwinkler/chirc/src/bstrlib.c:2521-2625 | what is returned is the last answer if that is negative, and 0 otherwise |
| Split.CharSplitDivides | cs233-win-15-amsadowski-nolanwinkler/chirc/src/bstrlib.c:2521-2581 | entries lie one terminator apart, hold no terminator and reach the end of the text |
| Split.DividesUnique | cs233-win-15-amsadowski-nolanwinkler/chirc/src/bstrlib.c:2521-2581 | only one list of entries does |
| Split.BSplit | cs233-win-15-amsadowski-nolanwinkler/chirc/src/bstrlib.c:2660-2681 | the list is the text cut at every occurrence of the character and never empty |
| Split.BSplitStr | cs233-win-15-amsadowski-nolanwinkler/chirc/src/bstrlib.c:2688-2709 | the entries joined by the separator give the text back, for every separator, the empty one included |
| Split.SinglesAre | cs233-win-15-amsadowski-nolanwinkler/chirc/src/bstrlib.c:2606-2611 | an empty separator gives one piece for each octet, in order |
| Split.ScanNext | cs233-win-15-amsadowski-nolanwinkler/chirc/src/bstrlib.c:2616-2622 | a piece ends at the first occurrence of the separator at or behind the place where the scan goes on, which is one position behind the separator before |
| Split.BJoin | cs233-win-15-amsadowski-nolanwinkler/chirc/src/bstrlib.c:2250-2288 | the result is the entries with the separator between them; no entries and a separator of two octets or more give NULL, and no entries and a separator of one octet a string that claims minus one octet |
| Split.JoinAfterSplit | cs233-win-15-amsadowski-nolanwinkler/chirc/src/bstrlib.c:2521-2537 | joining the entries of any string by the splitting character restores it |
| Split.SplitAfterJoin | cs233-win-15-amsadowski-nolanwinkler/chirc/src/bstrlib.c:2250-2288 | splitting what was joined restores a non-empty list if and only if no entry holds the character |
| Split.JoinAfterSplitStr | cs233-win-15-amsadowski-nolanwinkler/chirc/src/bstrlib.c:2599-2625 | joining the entries of any string by any separator string restores it |
| Split.SplitStrExactly | cs233-win-15-amsadowski-nolanwinkler/chirc/src/bstrlib.c:2613-2623 | bsplitstr cuts at every separator if and only if the separator has one character or no piece behind a separator but the last is empty |
| Split.ScanBehindSeparator | cs233-win-15-amsadowski-nolanwinkler/chirc/src/bstrlib.c:2616-2622 | the scan that skips one position behind a match agrees with the cut if and only if no piece but the last is empty there |
| Split.DoubledSeparatorSurvives | cs233-win-15-amsadowski-nolanwinkler/chirc/src/bstrlib.c:2616-2622 | splitting abab by ab leaves an entry that is the separator itself |
| Stream.BStream.ReadLn | cs233-win-15-amsadowski-nolanwinkler/chirc/src/bstrlib.c:1983-2038 | the octets delivered and what is pending make up what was pending, and the line ends at the first terminator, or without one at the end of the input |
| Stream.BStream.ReadLns | cs233-win-15-amsadowski-nolanwinkler/chirc/src/bstrlib.c:2047-2108 | the same for any set of terminators |
| Stream.BStream.ReadAhead | cs233-win-15-amsadowski-nolanwinkler/chirc/src/bstrlib.c:2118-2173 | at most n octets are delivered, and the buffer is empty again whenever the core has been read, so that nothing is read beyond them; if the reader returns nothing only at its end, none are delivered only if nothing is left |
| Stream.BStream.Unread | cs233-win-15-amsadowski-nolanwinkler/chirc/src/bstrlib.c:2229-2232 | the octets come back first, and the core is not touched |
| Stream.BStream.Peek | cs233-win-15-amsadowski-nolanwinkler/chirc/src/bstrlib.c:2239-2242 | the result is what is buffered, and a beginning of what is pending |
| Stream.RunOps | cs233-win-15-amsadowski-nolanwinkler/chirc/src/bstrlib.c:1983-2242 | over any sequence of calls, with a core that reads short as it likes, each call puts into the caller's string what it may: a line, at most n octets, or a copy of the beginning of what is pending; and what was delivered and what is pending are the original stream with the unread octets spliced in where they were given back |
| Stream.RunDelivers | cs233-win-15-amsadowski-nolanwinkler/chirc/src/bstrlib.c:1983-2242 | the deliveries of a served run are those of the splice |
| Stream.DoOp | cs233-win-15-amsadowski-nolanwinkler/chirc/src/bstrlib.c:1983-2242 | one call changes the caller's string and what is pending by the same octets |
| Stream.RunConserves | cs233-win-15-amsadowski-nolanwinkler/chirc/src/bstrlib.c:1983-2242 | the same about any sequence of deliveries and unreads in which each step splits off or puts back a beginning |
| StreamSplit.SplitStream | cs233-win-15-amsadowski-nolanwinkler/chirc/src/bstrlib.c:2309-2356 | the pieces, their offsets and the answer are those of splitting what the stream has to give, however the reads fall; that is all of it, unless the reader returned nothing before the end; what was not delivered is pending again |
| StreamSplit.SplitBoth | cs233-win-15-amsadowski-nolanwinkler/chirc/src/bstrlib.c:2309-2356 | bssplitscb on a stream and bsplitscb on what it has to give make the same calls |
| BStrings.BString.Alloc | cs233-win-15-amsadowski-nolanwinkler/chirc/src/bstrlib.c:99-153 | the string keeps its content and has room for more than the requested length |
| BStrings.SnapUpSize | cs233-win-15-amsadowski-nolanwinkler/chirc/src/bstrlib.c:71-93 | the size is a power of two above the request, at least eight, and beyond eight at most twice as large |
| BStrings.SnapUpLeast | cs233-win-15-amsadowski-nolanwinkler/chirc/src/bstrlib.c:71-93 | and no smaller power of two is |
| SimcList.List.FindPos | cs233-win-15-amsadowski-nolanwinkler/chirc/src/simclist.c:406-430 | every position from -1 to numels yields its node, sentinels included, whichever quarter it is in; any other yields null |
| SimcList.Quarters | cs233-win-15-amsadowski-nolanwinkler/chirc/src/simclist.c:414-427 | the three comparisons of the quotient decide between the quarters exactly, without rounding |
| SimcList.List.GetAt | cs233-win-15-amsadowski-nolanwinkler/chirc/src/simclist.c:371-377 | the datum at pos, and null beyond the end |
| SimcList.List.InsertAt | cs233-win-15-amsadowski-nolanwinkler/chirc/src/simclist.c:450-497 | the sequence gets the datum at pos and the nodes one node more; links, middle, spare pool and iterator stay consistent; refused during an iteration or beyond the end |
| SimcList.List.ExtractAt | cs233-win-15-amsadowski-nolanwinkler/chirc/src/simclist.c:432-448 | the datum at pos is returned and the sequence and the nodes lose that position; the node goes to the pool if there is room; refused requests change nothing |
| SimcList.List.DeleteAt | cs233-win-15-amsadowski-nolanwinkler/chirc/src/simclist.c:515-531 | the same without the datum |
| SimcList.List.DropElem | cs233-win-15-amsadowski-nolanwinkler/chirc/src/simclist.c:1345-1371 | unlinking keeps next and prev inverse and the middle pointer in the middle of what is left |
| SimcList.List.DeleteRange | cs233-win-15-amsadowski-nolanwinkler/chirc/src/simclist.c:533-593 | the sequence loses exactly the range, and the pool gets its first nodes; if the range is the whole list, and only then, the middle pointer runs off the list |
| SimcList.MidMoveLands | cs233-win-15-amsadowski-nolanwinkler/chirc/src/simclist.c:544-554 | in 32-bit arithmetic the move ends on the new middle if an element is left, and before the head sentinel if none is |
| SimcList.List.Clear | cs233-win-15-amsadowski-nolanwinkler/chirc/src/simclist.c:595-635 | nothing is left but the two sentinels, and the pool is filled up with the first nodes |
| SimcList.Concat | cs233-win-15-amsadowski-nolanwinkler/chirc/src/simclist.c:681-732 | the new list is the one appended to the other in nodes of its own, with the middle pointer in the middle for every pair of lengths; refused if dest is an argument or any is null |
| SimcList.List.Sort | cs233-win-15-amsadowski-nolanwinkler/chirc/src/simclist.c:734-743 | the data are a permutation, in order in the direction of versus if the comparator is a total preorder; nodes, links, length and middle pointer stay; refused during an iteration or without comparator |
| ListSort.Quicksort | cs233-win-15-amsadowski-nolanwinkler/chirc/src/simclist.c:783-904 | for any pivots the part is permuted and nothing else moves, and it is in order for a total preorder; the recursion ends |
| ListSort.Partition | cs233-win-15-amsadowski-nolanwinkler/chirc/src/simclist.c:808-868 | both phases leave the pivot between what may stand before it and what may stand behind it |
| ListSort.SelectionSort | cs233-win-15-amsadowski-nolanwinkler/chirc/src/simclist.c:762-781 | the same for short parts |
| ListSort.ShiftDown | cs233-win-15-amsadowski-nolanwinkler/chirc/src/simclist.c:839-852 | a three-way rotation moves a datum from before the pivot to behind it and keeps both sides right |
| ListSort.JoinSorted | cs233-win-15-amsadowski-nolanwinkler/chirc/src/simclist.c:901-902 | sorting both sides of the pivot sorts the whole |
| ListSort.NumbersAscend | cs233-win-15-amsadowski-nolanwinkler/chirc/src/simclist.c:1374-1374 | the number comparators are total preorders, and a positive versus sorts upwards |
| SimcList.List.Iterate | cs233-win-15-amsadowski-nolanwinkler/chirc/src/simclist.c:906-936 | whatever edits are attempted before each step of an iteration, any number of them, each is refused with its own answer, and the iteration yields exactly the elements in order |
| SimcList.List.IteratorNext | cs233-win-15-amsadowski-nolanwinkler/chirc/src/simclist.c:914-924 | the datum under the iterator, which moves on; once behind the last it yields the null datum of the tail sentinel |
| SimcList.List.RepOk | cs233-win-15-amsadowski-nolanwinkler/chirc/src/simclist.c:1442-1472 | on any chain of next pointers that ends, true if and only if the chain is a proper list with the right length, inverse links, middle and pool size |
| SimcList.List.ValidRepresents | cs233-win-15-amsadowski-nolanwinkler/chirc/src/simclist.c:1442-1472 | the invariant that every operation keeps implies what list_repOk tests |
| Base64.Encode | cs233-win-15-amsadowski-nolanwinkler/chirc/src/bstrlib-05122010/bstraux.c:308-371 | the encoding decodes to the input without truncation error and has the stated length |
| Base64.DecodeEx | cs233-win-15-amsadowski-nolanwinkler/chirc/src/bstrlib-05122010/bstraux.c:393-493 | the loop with its early exits computes the decoding of the symbols when other octets are skipped, except that the second of two paddings must follow at once |
| Base64.DecodeOrNull | cs233-win-15-amsadowski-nolanwinkler/chirc/src/bstrlib-05122010/bstraux.c:393-493 | without a place for the flag, an input that is cut short gives NULL |
| Base64.SkippedOctet | cs233-win-15-amsadowski-nolanwinkler/chirc/src/bstrlib-05122010/bstraux.c:393-493 | an octet that is no symbol and no padding changes the decoding if and only if it is put between the two paddings at the end |
| Base64.RoundTrip | cs233-win-15-amsadowski-nolanwinkler/chirc/src/bstrlib-05122010/bstraux.c:308-493 | decoding any encoding, from any group on, gives the octets back without truncation error |
| Base64.EncodedLength | cs233-win-15-amsadowski-nolanwinkler/chirc/src/bstrlib-05122010/bstraux.c:308-371 | four symbols for every three octets begun and two for every line break |
| Base64.EncodedLines | cs233-win-15-amsadowski-nolanwinkler/chirc/src/bstrlib-05122010/bstraux.c:315-342 | no line between line breaks has more than 76 symbols (section 5.2 of RFC 1341) |
| Base64.SymbolDecodes | cs233-win-15-amsadowski-nolanwinkler/chirc/src/bstrlib-05122010/bstraux.c:376-386 | each of the 64 symbols decodes to its value |
| Base64Laws.SymbolsAreTable | cs233-win-15-amsadowski-nolanwinkler/chirc/src/bstrlib-05122010/bstraux.c:302-386 | the symbols are those of the table in its order, the padding is =, and an octet decodes to v if and only if the table has it at v |
| Base64Laws.EncodingPlaces | cs233-win-15-amsadowski-nolanwinkler/chirc/src/bstrlib-05122010/bstraux.c:315-371 | each group stands in its place and spells to the base 64 the number whose digits to the base 256 are its octets; CR and LF stand in front of every nineteenth group; the last octets end the encoding |
| Base64Laws.LastSpells | cs233-win-15-amsadowski-nolanwinkler/chirc/src/bstrlib-05122010/bstraux.c:345-368 | one or two last octets are spelled with zeros for the missing ones, and have two paddings or one |
| Base64Laws.DecodingIs | cs233-win-15-amsadowski-nolanwinkler/chirc/src/bstrlib-05122010/bstraux.c:393-493 | for any text, whether it is cut short, how many octets come out and which, by the values of its symbols and what follows the first padding |
| UuCode.Encode | cs233-win-15-amsadowski-nolanwinkler/chirc/src/bstrlib-05122010/bstraux.c:722-753 | decoding the lines gives the input back, no line is bad, and the text ends with an end of line |
| UuCode.RoundTrip | cs233-win-15-amsadowski-nolanwinkler/chirc/src/bstrlib-05122010/bstraux.c:504-573 | the same from any line on |
| UuCode.LineDecodes | cs233-win-15-amsadowski-nolanwinkler/chirc/src/bstrlib-05122010/bstraux.c:504-573 | a line of up to 45 octets decodes to them although its last group is padded |
| UuCode.DecLine | cs233-win-15-amsadowski-nolanwinkler/chirc/src/bstrlib-05122010/bstraux.c:504-573 | a line adds its octets and is counted bad if its length or a character is out of range or it is too short |
| UuLaws.CodesAre | cs233-win-15-amsadowski-nolanwinkler/chirc/src/bstrlib-05122010/bstraux.c:495-715 | nothing is coded as a grave accent, one as ! and so on in order to _; a space reads as nothing too; which octets are out of range and which of those are hopeless |
| UuLaws.EncodingPlaces | cs233-win-15-amsadowski-nolanwinkler/chirc/src/bstrlib-05122010/bstraux.c:722-753 | line m has its place, the code of its number of octets, then groups that spell their octets to the base 64 with zeros behind the end, then CR and LF |
| UuLaws.LineResultIs | cs233-win-15-amsadowski-nolanwinkler/chirc/src/bstrlib-05122010/bstraux.c:504-573 | for any line, whether it is bad, whether it is lost, how many octets it leaves and which, by its length code and the codes it needs |
| UuStream.Decoder.Part | cs233-win-15-amsadowski-nolanwinkler/chirc/src/bstrlib-05122010/bstraux.c:615-678 | each call hands out at most tsz octets, and what it handed out, what waits and what is still to be decoded amount to what there was, for any reader; once the input is over, every call adds the octets of the tail again; nothing is handed out only if the input is over and nothing waits |
| UuStream.DecodeEx | cs233-win-15-amsadowski-nolanwinkler/chirc/src/bstrlib-05122010/bstraux.c:589-608 | for any text, the result is the octets of its lines, then those of its tail over and over, cut at INT_MAX; NULL if there are none; if they fit, the bad lines are counted |
| UuStream.EncodeDecode | cs233-win-15-amsadowski-nolanwinkler/chirc/src/bstrlib-05122010/bstraux.c:589-608 | encoding and decoding any string gives it back, as far as INT_MAX octets, with no bad line, and nothing for the empty one |
| UuStream.EnoughDecoded | cs233-win-15-amsadowski-nolanwinkler/chirc/src/bstrlib-05122010/bstraux.c:589-608 | INT_MAX octets handed out are always the first of those |
| UuStream.UnterminatedLineNeverEnds | cs233-win-15-amsadowski-nolanwinkler/chirc/src/bstrlib-05122010/bstraux.c:657-671 | a lone line without its end of line is a tail with octets |
| Justify.JustifyLeft | cs233-win-15-amsadowski-nolanwinkler/chirc/src/bstrlib-05122010/bstraux.c:111-128 | the in-place pass leaves the words joined by single spaces; a space that is no character is ignored |
| Justify.SqueezeIsWords | cs233-win-15-amsadowski-nolanwinkler/chirc/src/bstrlib-05122010/bstraux.c:118-123 | what the pass keeps is the words, each followed by one space if a space followed it |
| Justify.WordsAppend | cs233-win-15-amsadowski-nolanwinkler/chirc/src/bstrlib-05122010/bstraux.c:118-123 | what the words are, octet by octet: a space changes none, anything else lengthens the last or, behind a space, begins one |
| Justify.JustifyMargin | cs233-win-15-amsadowski-nolanwinkler/chirc/src/bstrlib-05122010/bstraux.c:163-197 | with two words or more and room to spare the string has exactly the width, the same words in order, and gaps that are all q or q+1 for one q of at least one, each the share of what is left rounded to the nearest number; otherwise it is left-justified |
| Justify.RoundedAt | cs233-win-15-amsadowski-nolanwinkler/chirc/src/bstrlib-05122010/bstraux.c:185-190 | gap j is the spaces left over the gaps left, rounded to the nearest number, halves up |
| Justify.FairStep | cs233-win-15-amsadowski-nolanwinkler/chirc/src/bstrlib-05122010/bstraux.c:185-190 | rounding the rest over the gaps left yields q or q+1 and leaves a rest that can be shared out the same way |
| Justify.StretchedKeepsWords | cs233-win-15-amsadowski-nolanwinkler/chirc/src/bstrlib-05122010/bstraux.c:181-193 | words set apart by gaps of at least one are found again |
| Justify.StretchedLength | cs233-win-15-amsadowski-nolanwinkler/chirc/src/bstrlib-05122010/bstraux.c:181-193 | the length is that of the words and the gaps |
| Sha1.Context.HashCalls | cs233-win-15-amsadowski-nolanwinkler/simple-router/router/sha1.c:104-185 | after any run of inputs and results, the result succeeds if and only if the bits before the first result fit 64 bits and no input follows a result, and the digest is then that of FIPS PUB 180-1 for the octets fed, however they were divided |
| Sha1.CorruptedExactly | cs233-win-15-amsadowski-nolanwinkler/simple-router/router/sha1.c:104-185 | the state machine of calls is corrupted exactly then |
| Sha1.Context.Reset | cs233-win-15-amsadowski-nolanwinkler/simple-router/router/sha1.c:71-85 | a context without message |
| Sha1.Context.Input | cs233-win-15-amsadowski-nolanwinkler/simple-router/router/sha1.c:143-185 | the message grows by the octets, or the context is corrupted as stated |
| Sha1.Context.InputOctet | cs233-win-15-amsadowski-nolanwinkler/simple-router/router/sha1.c:158-184 | digest, block buffer and length pair stay those of the message, and the carry out of the high word corrupts exactly at 2^64 bits |
| Sha1.Context.ProcessMessageBlock | cs233-win-15-amsadowski-nolanwinkler/simple-router/router/sha1.c:207-301 | the eighty rounds in four loops are the rounds of section 7 on the block |
| Sha1.Context.RunRounds | cs233-win-15-amsadowski-nolanwinkler/simple-router/router/sha1.c:243-287 | four loops with four functions and constants make the eighty rounds |
| Sha1.Context.PadMessage | cs233-win-15-amsadowski-nolanwinkler/simple-router/router/sha1.c:326-371 | the block or two that are processed make the digest that of the padded message |
| Sha1.Context.Result | cs233-win-15-amsadowski-nolanwinkler/simple-router/router/sha1.c:104-119 | the message is padded once; the digest is that of the message |
| Sha1Spec.PaddedLength | cs233-win-15-amsadowski-nolanwinkler/simple-router/router/sha1.c:326-371 | the padded message has whole blocks |
| Sha1.LengthOctets | cs233-win-15-amsadowski-nolanwinkler/simple-router/router/sha1.c:361-368 | the octets stored from the two length words are the 64-bit length, most significant first |
| Sha1Laws.InitialDigits | cs233-win-15-amsadowski-nolanwinkler/simple-router/router/sha1.c:77-81 | the octets of the initial digest count up through the digits, down again, and skip through them |
| Sha1Laws.ConstantsAreRoots | cs233-win-15-amsadowski-nolanwinkler/simple-router/router/sha1.c:209-215 | the constants are the integer square roots of 2^60 times 2, 3, 5 and 10 |
| Sha1Laws.ShiftsRotate | cs233-win-15-amsadowski-nolanwinkler/simple-router/router/sha1.c:46-48 | the circular shifts by 1, 5 and 30 put at the bottom what leaves at the top |
| Sha1Laws.FunctionsByBits | cs233-win-15-amsadowski-nolanwinkler/simple-router/router/sha1.c:243-287 | bit by bit, the four functions are choice, parity, majority and parity |
| Sha1Laws.FirstWords | cs233-win-15-amsadowski-nolanwinkler/simple-router/router/sha1.c:224-230 | the first words of a block are the values of its octets to the base 256 |
| Sha1Laws.BlocksAreChained | cs233-win-15-amsadowski-nolanwinkler/simple-router/router/sha1.c:237-299 | the rounds of a block start with the digest of those before, and what they make is what the digest changes by |
| Sha1Laws.PaddingIs | cs233-win-15-amsadowski-nolanwinkler/simple-router/router/sha1.c:326-371 | the padded message is the message, a one bit, as few zeros as fill the blocks, and the number of bits in eight octets |
| Sha1Laws.AbcDigest | cs233-win-15-amsadowski-nolanwinkler/simple-router/router/sha1.c:104-301 | the digest of abc is that of appendix A of FIPS PUB 180-1 |
| Arp.PacketsAreConserved | cs233-win-15-amsadowski-nolanwinkler/simple-router/router/sr_arpcache.c:19-111 | over any run, every accepted packet waits, has been forwarded once or has been answered once with host unreachable |
| Arp.EveryRun | cs233-win-15-amsadowski-nolanwinkler/simple-router/router/sr_arpcache.c:19-111 | queued requests have distinct addresses and at least one packet, so that the branch for none is dead; every request ever made has been broadcast at most five times, more than a second apart, and is live, answered or given up after five |
| Arp.StepKeepsInv | cs233-win-15-amsadowski-nolanwinkler/simple-router/router/sr_arpcache.c:19-130 | each handling of a packet, sweep or reply keeps that |
| Arp.LiveHandled | cs233-win-15-amsadowski-nolanwinkler/simple-router/router/sr_arpcache.c:28-106 | handling a live request leaves it with one more broadcast, more than a second after the last, or ends it after five |
| Arp.SweepHandlesEachOnce | cs233-win-15-amsadowski-nolanwinkler/simple-router/router/sr_arpcache.c:120-130 | a sweep is each request handled once in order, although handling removes requests from the list |
| Arp.TriedAtEachTick | cs233-win-15-amsadowski-nolanwinkler/simple-router/router/sr_arpcache.c:120-130 | between two sweeps more than a second apart every request still queued is tried once more, whatever packets are queued meanwhile |
| Arp.RequestsEnd | cs233-win-15-amsadowski-nolanwinkler/simple-router/router/sr_arpcache.c:28-57 | a request is out of the queue when its tries and such sweeps add up to six |
| Arp.UnansweredIsGivenUp | cs233-win-15-amsadowski-nolanwinkler/simple-router/router/sr_arpcache.c:28-57 | and if nobody answers, its story is five broadcasts and the end |
| Arp.BroadcastsTwoApart | cs233-win-15-amsadowski-nolanwinkler/simple-router/router/sr_arpcache.c:28-104 | in every run, two broadcasts of a request that follow each other are at least two whole seconds apart |
| Arp.SweepSendsExactly | cs233-win-15-amsadowski-nolanwinkler/simple-router/router/sr_arpcache.c:28-104 | a sweep broadcasts a queued request that has tries left, and gives up one that has none, if and only if more than a second has passed since the last time |
| Arp.EnqueueSendsExactly | cs233-win-15-amsadowski-nolanwinkler/simple-router/router/sr_arpcache.c:19-111 | a packet for an address already asked for is put in front and triggers a broadcast if more than a second has passed and tries are left, the end with a host unreachable for every packet if none are, and nothing otherwise; nothing changes for other addresses |
| Arp.EnqueueAsks | cs233-win-15-amsadowski-nolanwinkler/simple-router/router/sr_arpcache.c:166-205 | a packet for another address makes a request at the front that is broadcast at once, if the clock is past its first second |
| Arp.ReplySendsExactly | cs233-win-15-amsadowski-nolanwinkler/simple-router/router/sr_router.c:330-351 | a reply sends the packets of its address in their order and nothing else; no other request goes |
| Arp.EveryOtherSecond | cs233-win-15-amsadowski-nolanwinkler/simple-router/router/sr_arpcache.c:28-130 | with a sweep in every second, broadcasts go out exactly every two seconds, five in all, and the request is given up ten seconds after it came |
| ArpQueue.ArpCache.HandleRequest | cs233-win-15-amsadowski-nolanwinkler/simple-router/router/sr_arpcache.c:19-111 | handling on the linked list is the abstract step, unlinks nothing but the request, and sends exactly the frames of the step |
| ArpQueue.WireTells | cs233-win-15-amsadowski-nolanwinkler/simple-router/router/sr_arpcache.c:28-57 | the frames sent hold the packets that the abstract run forwards and refuses |
| ArpQueue.FramesInOrder | cs233-win-15-amsadowski-nolanwinkler/simple-router/router/sr_arpcache.c:19-111 | every broadcast, forward and refusal of the abstract run is one frame, in the same order, and there is no other |
| ArpQueue.ArpCache.QueueReq | cs233-win-15-amsadowski-nolanwinkler/simple-router/router/sr_arpcache.c:166-205 | the request for the address, found or put first, gets the packet first |
| ArpQueue.ArpCache.Destroy | cs233-win-15-amsadowski-nolanwinkler/simple-router/router/sr_arpcache.c:254-290 | the entry leaves the list if it is in it |
| ArpQueue.ArpCache.Insert | cs233-win-15-amsadowski-nolanwinkler/simple-router/router/sr_arpcache.c:211-250 | the request for the address leaves the list and is returned |
| ArpQueue.ArpCache.SweepReqs | cs233-win-15-amsadowski-nolanwinkler/simple-router/router/sr_arpcache.c:120-130 | the walk with the successor saved is the abstract sweep, and sends its frames |
| ArpQueue.ArpCache.HandleReply | cs233-win-15-amsadowski-nolanwinkler/simple-router/router/sr_router.c:330-351 | all packets that wait are sent and the request is gone, if the reply is for the router |
| ArpQueue.ArpCache.HandleMiss | cs233-win-15-amsadowski-nolanwinkler/simple-router/router/sr_router.c:294-299 | queueing and handling are the abstract step, and its frames are sent |
| ArpQueue.ArpCache.Serve | cs233-win-15-amsadowski-nolanwinkler/simple-router/router/sr_router.c:294-299 | any run on the linked list is the abstract run; every packet accepted waits in the list, has been sent once, or its sender has been sent one host unreachable |
| TwoMutex.MutualExclusion | Systems/lab4/ex2/main.c:12-50 | in every reachable state, stuck or not, no two threads are inside the same lock, and whoever is inside owns it |
| TwoMutex.ExclusiveAccess | Systems/lab4/ex2/main.c:12-50 | in every run a counter changes only by one and under its own lock |
| TwoMutex.StuckExactly | Systems/lab4/ex2/main.c:12-50 | a reachable state in which nobody can step is finished or the circular wait, and conversely |
| TwoMutex.FinishedCounts | Systems/lab4/ex2/main.c:12-50 | a finished run has counted the odds and evens below nEntries exactly |
| TwoMutex.StepKeepsInv | Systems/lab4/ex2/main.c:12-50 | every step keeps lock ownership, program counters and counts consistent |
| TwoMutex.RunsAreShort | Systems/lab4/ex2/main.c:12-50 | no schedule has more than 8n+2 steps |
| TwoMutex.DeadlockExactly | Systems/lab4/ex2/main.c:12-50 | the circular wait is reachable if and only if nEntries is at least four |
| TwoMutex.SmallCountsFinish | Systems/lab4/ex2/main.c:12-50 | below four every run that can go no further has counted everything |
| TwoMutex.CanAlwaysFinish | Systems/lab4/ex2/main.c:12-50 | some schedule finishes for every nEntries |
| Checksum.Cksum | cs233-win-15-amsadowski-nolanwinkler/simple-router/router/sr_utils.c:8-20 | the result is never 0, and completes the sum to a multiple of 65535 |
| Checksum.WordSumIs | cs233-win-15-amsadowski-nolanwinkler/simple-router/router/sr_utils.c:12-15 | the octets at even offsets count 256 times, the others once |
| Checksum.OddOctetIsPadded | cs233-win-15-amsadowski-nolanwinkler/simple-router/router/sr_utils.c:14-15 | an odd last octet counts as if a zero followed it |
| Checksum.FoldResidue | cs233-win-15-amsadowski-nolanwinkler/simple-router/router/sr_utils.c:16-17 | folding ends in 16 bits, keeps the residue modulo 65535 and is 0 for 0 alone |
| Checksum.ChecksumVerifiesExactly | cs233-win-15-amsadowski-nolanwinkler/simple-router/router/sr_utils.c:8-20 | written into its zeroed field the checksum verifies if and only if the sum of the words stays below 2^32 |
| Checksum.ChecksumVerifies | cs233-win-15-amsadowski-nolanwinkler/simple-router/router/sr_utils.c:8-20 | it does for data of up to 65537 words (section 1 of RFC 1071) |
| Checksum.LongDataDefeatsChecksum | cs233-win-15-amsadowski-nolanwinkler/simple-router/router/sr_utils.c:8-20 | and fails for one more word of ones and a zeroed field |
| Checksum.MakeIpPacket | cs233-win-15-amsadowski-nolanwinkler/simple-router/router/sr_router.c:437-461 | the packet is a header that verifies, with its fields in their places and the total length modulo 2^16, and the data |
| Checksum.AcceptsExactly | cs233-win-15-amsadowski-nolanwinkler/simple-router/router/sr_router.c:158-181 | the router accepts a header if and only if it verifies and its checksum field is not 0 |

## Left out

- Sockets, threads, files, printing, the VNS client and the test harnesses: input and output only.
- Failing allocation, and arguments that alias the string or list being changed: patterns, replacements and entries are immutable values.
- Sizes of 2^30 and more: lengths are unbounded numbers except where the wrap-around or INT_MAX is the point.
- The shifts of `snapUpSize`: the least power of two above the request is computed by doubling.
- `binstrcaseless` and the case-insensitive replacement: the same engine with another search.
- The growing array of match positions in the expanding replacement: it is a sequence here.
- Readers that return more than they were asked for, and callbacks that touch the stream that is split.
- `bssplitstrcb`: it can hand out its last read undivided.
- UuStream.DecodeEx: how often a bad tail is counted, once or twice, is not said; nor that memory may end before INT_MAX octets.
- The uudecoder without a place for the number of bad lines: it stops at the first bad line, without dropping what it has decoded from its input.
- The float quotient in `list_findpos`: it is a rational number here, which agrees for lists up to 2^24 elements.
- The spare pool as an array: it is a sequence of at most five nodes; slots above the count are not modelled.
- `copy_data`, seeking, hashing, dumping and restoring of lists, and sorting with two threads.
- SimcList.List.IteratorNext: asks for a position up to the end, as the source follows null at the second call behind it.
- SimcList.List.DeleteRange: says nothing about the list after the null pointer dereference.
- Reading the clock once for each request of a sweep, and interleaving inside a step: each handling is atomic and has one time.
- The list of packets of a request: it is a sequence, newest first; the loops over it are loops over that sequence.
- The table of ARP entries with its timeout, the addresses learnt, and all Ethernet, ARP and ICMP header fields: they do not decide what happens to a waiting packet.
- Packets that are sent at once because the entry is known, or refused for lack of a route: they never enter the queue.
- Missing interfaces or routes when a host unreachable is sent: the source would follow null.
- IRC handlers, homework lists, trees and hash tables, the Data Lab puzzles and the transposition.
