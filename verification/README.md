# isbn-hyphenate: a Dafny model of the transducer and the hyphenator

The program reads the range message of the International ISBN Agency, builds a finite-state transducer over
the registration-group prefixes together with a prefix table and a range table, packs the transducer into one
block, and hyphenates 13-digit ISBNs with the result. This project models that chain, and the growable vector
and the line reader underneath it, and proves what each part means.

| file | models |
|---|---|
| `CStrings.dfy` | NUL-terminated strings; result codes |
| `Vectors.dfy` | the growable vector, a class |
| `Transducers.dfy` | the transducer as a value: what the loops of the library compute |
| `Tries.dfy` | the invariant of that value and how one addition changes it |
| `Meaning.dfy` | what a transducer built by any run of additions means |
| `Fst.dfy` | the library's procedures, updating a vector of states in place |
| `Packing.dfy` | the packed block, a flat array of words, and lookups in it |
| `Numbers.dfy`, `RuleStrings.dfy` | decimal slices with 32-bit wrap-around; rules written as strings |
| `Tables.dfy` | prefix table, range table and transducer as values, over any run of parser calls |
| `Texts.dfy` | the text that is written, and what is printed of it |
| `RangeSearch.dfy` | the search of a slice of rules and the number searched for |
| `Hyphenation.dfy` | the result from end to end |
| `ShippedGroups.dfy` | two groups of the shipped range table, 978-81 and 978-968 |
| `IsbnTables.dfy` | `isbn_info_t` as a class, and the methods that fill it and hyphenate with it |
| `Lines.dfy`, `LineBuffers.dfy` | reading a line into a linked list of page slots |

Conventions. `fst->len` is the index of the last state, so a `Graph` of n states has `len` n - 1. Every
imperative procedure is proved equal to a function on values; the theorems are about those functions, over
`Build(entries)` (any sequence of additions) and `Run(events)` (any sequence of rules and groups, as the parser
delivers them). `Fault` and `Undefined` stand for reads and writes outside every object, where C gives the program
no meaning: they are outcomes of the model, and the theorems about lookups and hyphenation say when they occur. One
such write lies outside the model: the program packs into a block of `fst_measure` bytes, which is four words
shorter than what `fst_pack` writes (`MeasureLeavesOutHeader`). `FstPack` requires a block with room, and the
results about packed lookups hold for such a block, not for the program's own.

An ISBN lies at the start of a stretch of memory, `mem`, which ends with the object that holds it. `place_hyphens`
reads eight characters behind the prefix, so a prefix of n digits needs n + 8 characters of memory (`Placeable`).
A line delivered by the line reader has 14, which suffices up to six digits; behind longer prefixes the result is
`Undefined` there and a text where more memory follows.

The characters that matter are written by their codes in the statements: 45 for the hyphen, 48 to 57 for the digits,
10 for the newline.

The main results:

- A run of additions stores exactly the finite map of first additions, keeps a trie in which every state has
  one path, and fails exactly on duplicates (`BuildRefinesDict`, `AdditionExtendsMap`, `ExactLookup`).
- A prefix lookup returns v iff one key of value v is the whole input, or a proper prefix of it that no other key
  extends (`PrefixLookup`). It agrees with the scan of a longest-first list exactly when the longest matching key
  is the whole input or is not extended by another key (`TransducerRefinesScan`).
- Packing preserves every lookup except those of strings that begin with the last key to have gained states
  (`PackedLookupAgrees`).
- The flat tables stand for the document's list of groups with their rules (`RunFlattensBook`, `DocumentIsRead`), and the
  hyphenator's result is determined by that document (`EndToEnd`, `PackedEndToEnd`).
- Removing the hyphens from the text gives back the ISBN exactly when the registration group has one digit, for
  prefixes of every length (`DigitsConserved`). Read as a C string, the text ends at its first NUL, and then the
  digits are those of the ISBN exactly for prefixes of four digits and of six or more (`PrintedDigits`).
- Whenever a text is meant for an ISBN, the code writes it, or prints it, exactly when the group has one digit,
  whatever rule it takes (`TextIsAsMeant`, and within `EndToEnd`). The rule it takes is the one meant exactly when
  that rule also contains the number behind the prefix (`RuleIsTheOneMeant`).
- The text is given index by index for prefixes and registrants of every length (`TextLayout`), and it is written
  exactly when what is read and what is written stays inside its memory (`EndToEnd`).
- ENOENT comes back exactly when no section governs the ISBN or the governing section has a gap where the code
  reads the registrant (`EnoentMeansGap`).
- A line is read back exactly when it fits the pages of one list node (`ListHoldsLine`, `LineIsDelivered`).

Where the code differs from its own comments, the code is modelled:

- `fst_measure` is described as giving the size of a block for the whole transducer; it leaves out the header and
  state `len`, and `fst_pack` copies the header but not state `len` (`MeasureLeavesOutHeader`, `LastGrowthIsKey`).
- `place_hyphens` gives the publication 8 - len characters and the registrant is read at offset 4 whatever the
  length of the prefix; both suit one-digit groups only. `HyphenatedAsMeant`, `NumberBehind` and `TextMeant` are the
  text, the number and the result as meant; they are not the code and are kept apart. What is read at offset 4
  begins with the group's own digits (`RegistrantBeginsWithGroup`), so every Indian ISBN is cut by the rule for two
  digits (`IndianRules`; `IndianText` has the check digit twice), and the gap in the Mexican rules is never met
  (`MexicanGap`).
- `sgl_append`, on a full node, links a new node but hands out slot 0 of the full one, so longer lines lose a page.

## Model

| member | source | states |
|---|---|---|
| Meaning.BuildRefinesDict | src/libfst/libfst.c:419-473 | after any run of additions: edges lead to later states, one incoming edge per non-root state, distinct labels, no dead ends, and exactly the map of first additions is stored |
| Meaning.DictHoldsFirstAdditions | src/libfst/libfst.c:442-457 | a string is a key iff it was added, with the value of its first addition |
| Meaning.AdditionExtendsMap | src/libfst/libfst.c:419-473 | an addition reports EEXIST iff the string is a key and then changes nothing; otherwise it reports 0, never EDOM or ELOOP, and adds exactly that entry to the map |
| Meaning.ExactLookup | src/libfst/libfst.c:535-539 | lookup of a whole string is lookup in the map, ENOENT outside it |
| Meaning.PrefixLookup | src/libfst/libfst.c:475-529 | the exact meaning of prefix lookup in every non-empty transducer, in terms of the map alone |
| Meaning.AtMostOneSettles | src/libfst/libfst.c:541-555 | at most one key can decide a prefix lookup |
| Meaning.FinalMeansUnextended | src/inc/libfst-impl.h:151-174 | a state is final iff its string is a key that no other key extends, and transition 0 then holds its value |
| Meaning.PrefixLookupOfNothing | src/libfst/libfst.c:511-516 | before the first addition a prefix lookup of a non-empty string inspects a transition that does not exist; an exact lookup gives ENOENT |
| Meaning.TransducerRefinesScan | README.md:79-99 | the transducer answers as the longest-first list scan exactly when the longest matching key is the input or is not extended; otherwise it answers ENOENT |
| Meaning.PrefixFreeScan | README.md:91-99 | for a prefix-free key set, transducer and list scan agree on every input |
| Meaning.ScanAndTransducerDiffer | src/libfst/libfst.c:511-519 | keys 97 and 978 tell the two apart on input 979 |
| Meaning.OnePathPerState | src/libfst/libfst.c:391-406 | every state is reached from state 0 by exactly one string |
| Meaning.Conservation | src/libfst/libfst.c:345-406 | len is the number of distinct non-empty prefixes of the keys; the transitions number len plus the keys |
| Tries.WalkIsBounded | src/libfst/libfst.c:489-527 | a walk of n edges ends at state n or later and inside the states, so no walk is longer than len |
| Meaning.TurnsAreBounded | src/libfst/libfst.c:489-527 | in every transducer that a run of additions yields, a lookup makes at most min(len, length of the string) + 1 turns |
| Meaning.NoEdgeToRoot | src/libfst/libfst.c:519-523 | no edge under a character leads to state 0, so the branch for such an edge is never taken |
| Tries.LastStateEndsString | src/libfst/libfst.c:458-470 | when an addition gains states, the last of them is the end of the added string |
| Fst.RuleLookup | src/libfst/libfst.c:295-328 | the linear search returns the first transition with the label; EDOM beyond len, ENOENT without one |
| Fst.AddTransition | src/libfst/libfst.c:345-377 | appends one transition to one state; EDOM and ELOOP change nothing |
| Fst.AddState | src/libfst/libfst.c:391-406 | one empty state is added behind the last and every state is kept across reallocation |
| Fst.AddString | src/libfst/libfst.c:419-473 | result code and new states are those of the function the theorems are about |
| Fst.FstLookup | src/libfst/libfst.c:475-529 | returns what the lookup function defines, after at most one turn more than the edges it walks |
| Fst.FstMeasure | src/libfst/libfst.c:142-170 | bytes of the headers and transitions of states 0 to len-1 |
| Fst.BuildFst | src/test-libfst/test-libfst.c:38-46 | any sequence of additions to a new transducer yields the value the theorems are about |
| Packing.FstPack | src/libfst/libfst.c:178-238 | the block encodes states 0 to len-1 at their computed offsets, the cursor ends behind the last transition, and nothing beyond is written |
| Packing.BlocksInOrder | src/libfst/libfst.c:225-237 | transition blocks follow one another in state order without gap or overlap |
| Packing.MeasureLeavesOutHeader | src/libfst/libfst.c:240-251 | packing fills exactly the measured bytes and the header of four words |
| Packing.PackedLookup | src/libfst/libfst.c:475-529 | the lookup loop over the words of the block computes lookup in the encoded states |
| Packing.PackedLookupAgrees | src/libfst/libfst.c:178-238 | packed and unpacked lookups, exact or prefix, agree on every string that does not begin with the last key to have gained states, and on those the block has no answer |
| Packing.LastGrowthIsKey | src/libfst/libfst.c:220-229 | that key is in the map, found before packing and not after |
| Numbers.ParseNumberSlice | src/isbn-xml-to-fst/isbn-xml-to-fst.c:495-510 | the decimal value of the slice modulo 2^32 |
| Numbers.NineDigitsFit | src/isbn-xml-to-fst/isbn-xml-to-fst.c:498-499 | up to nine digits nothing wraps and the value is below the power of ten |
| Numbers.NumericIsLexicographic | src/isbn-xml-to-fst/isbn-xml-to-fst.c:495-510 | on equal lengths, numeric order is dictionary order and equal numbers are equal strings |
| RuleStrings.RuleOfStrings | src/isbn-xml-to-fst/isbn-xml-to-fst.c:254-297 | a range is split at its first character 45; a side of 15 characters or more and a missing string are rejected, everything else is accepted, the bounds modulo 2^32 |
| RuleStrings.RangeIsReadBack | src/isbn-xml-to-fst/isbn-xml-to-fst.c:242-297 | a range written in digits, up to 14 a side, with the character 45 between, is read back modulo 2^32 |
| RuleStrings.NineDigitRange | src/isbn-xml-to-fst/isbn-xml-to-fst.c:242-297 | with up to nine digits a side it is read back exactly |
| RuleStrings.ConversionOfStrings | src/isbn-xml-to-fst/isbn-xml-to-fst.c:293-295 | the value of every string: white space, a sign, the digits, with saturation and the complement for a minus sign |
| RuleStrings.ReadRule | src/isbn-xml-to-fst/isbn-xml-to-fst.c:254-295 | missing strings and sides of more than 14 characters are rejected; the rest is split at the first hyphen and converted |
| Tables.RunFlattensBook | src/isbn-xml-to-fst/isbn-xml-to-fst.c:171-240 | for any run of calls the two flat arrays and the transducer stand for the document's groups with their rules, rejected and rule-less groups included |
| Tables.SlicesInOrder | src/isbn-xml-to-fst/isbn-xml-to-fst.c:228-236 | slices with rules lie in table order and do not overlap |
| Tables.SlicesCover | src/inc/isbn-info.h:39-51 | every rule of the range table lies in some slice, the pending one included, and no slice reaches beyond |
| Tables.CountsSumToRules | src/isbn-xml-to-fst/isbn-xml-to-fst.c:235-237 | the counts of all slices add up to the number of rules |
| Tables.RecordsAreKept | src/isbn-xml-to-fst/isbn-xml-to-fst.c:204-226 | entries of both tables, once recorded, never change |
| Tables.IndexAgreesWithTable | src/isbn-xml-to-fst/isbn-xml-to-fst.c:204-213 | the transducer maps exactly the prefixes of the table, each to the first index that holds it, and the value counter is the length of the table |
| Tables.GroupCode | src/isbn-xml-to-fst/isbn-xml-to-fst.c:171-215 | after any run, a prefix is accepted iff all its characters have the codes 48 to 57 or 45; then one entry is recorded, with the stripped prefix and the pending rules, and the code is EEXIST exactly for a prefix already in the table; otherwise 2 is returned and nothing changes |
| Tables.RuleIsAdded | src/isbn-xml-to-fst/isbn-xml-to-fst.c:217-240 | after any run, a rule goes behind all others and is counted in the pending slice, which begins with it if none was open |
| Tables.FifteenDigitsFit | src/isbn-xml-to-fst/isbn-xml-to-fst.c:175 | a prefix of digits and hyphens fits the buffer of the builder iff it has at most 15 digits |
| Tables.DocumentIsRead | src/isbn-xml-to-fst/isbn-xml-to-fst.c:345-441 | reading a document gives it back: one section for each listed group, in order, with its own rules, its agency and its stripped prefix |
| Tables.NumericPrefixIsStripped | src/isbn-xml-to-fst/isbn-xml-to-fst.c:184-195 | the recorded prefix is the given one without its hyphens, all digits |
| Texts.TextLayout | src/isbn-xml-to-fst/isbn-xml-to-fst.c:581-596 | the text index by index, for prefixes and registrants of every length: which characters stand where, and the character 45 at 3, pfxlen + 1, pfxlen + 2 + len and pfxlen + 11 |
| Texts.TextLength | src/isbn-xml-to-fst/isbn-xml-to-fst.c:577-596 | 16 + (pfxlen - 3) characters are written whatever the registrant's length, for every prefix of three digits or more; they fit 18 bytes iff the prefix has at most four |
| Texts.StripDropsHyphens | src/isbn-xml-to-fst/isbn-xml-to-fst.c:583-593 | removing hyphens keeps what has no character 45 and drops each one found |
| Texts.StrippedText | src/isbn-xml-to-fst/isbn-xml-to-fst.c:581-595 | what remains of the text without hyphens, for every prefix length: memory up to eight characters behind the prefix, and the check digit |
| Texts.DigitsConserved | src/isbn-xml-to-fst/isbn-xml-to-fst.c:565-597 | removing the hyphens gives back the ISBN iff the prefix has four digits, for every prefix length |
| Texts.PrintedDigits | src/cmd/isbn-hyphenate.c:225-228 | the characters before the first NUL, which are what is printed, have the digits of the ISBN iff the prefix has four digits or at least six |
| Texts.LongGroupPrinted | src/isbn-xml-to-fst/isbn-xml-to-fst.c:589-596 | behind a prefix of six digits or more four parts are printed, the check digit not set off from the publication |
| Texts.OneDigitGroup | src/isbn-xml-to-fst/isbn-xml-to-fst.c:512-525 | for a one-digit group: 17 characters, hyphens exactly at 3, 5, 6+len and 15, the five elements in order, the digits conserved |
| Texts.AsMeant | src/isbn-xml-to-fst/isbn-xml-to-fst.c:512-525 | whatever registrant lengths the two take, the text written, and the text printed, is the one meant iff the group has one digit |
| Texts.MeantConservesDigits | src/isbn-xml-to-fst/isbn-xml-to-fst.c:512-525 | the text with the publication length as meant has 17 characters and conserves the digits for groups of every length |
| Texts.MeantLayout | src/isbn-xml-to-fst/isbn-xml-to-fst.c:512-525 | the same for the text as meant |
| Hyphenation.TextIsAsMeant | src/isbn-xml-to-fst/isbn-xml-to-fst.c:675-709 | the text cut by the rule the code takes is the text cut by the rule meant iff the group has one digit |
| RangeSearch.RuleIsTheOneMeant | src/isbn-xml-to-fst/isbn-xml-to-fst.c:675 | for a tiling in any order, the rule taken is the rule meant iff it contains the number behind the prefix as well |
| RangeSearch.RegistrantBeginsWithGroup | src/isbn-xml-to-fst/isbn-xml-to-fst.c:675 | the number searched for begins with the digits of the group behind its first, so a two-digit group confines it to one million |
| RangeSearch.BehindFourDigits | src/isbn-xml-to-fst/isbn-xml-to-fst.c:534-543 | for a one-digit group the number searched for is the number behind the prefix |
| RangeSearch.BehindLongPrefix | src/isbn-xml-to-fst/isbn-xml-to-fst.c:534-543 | behind five digits or more the number is that of the digits up to the check digit, scaled to seven places |
| ShippedGroups.IndianRules | src/cmd/isbn-range.xml:1268-1291 | every 978-81 ISBN is cut by the rule for two digits; that is the rule meant iff the digits behind the prefix are at most 1999999 |
| ShippedGroups.IndianText | src/isbn-xml-to-fst/isbn-xml-to-fst.c:675 | the code's text for the Indian ISBN of the test cases, in which the check digit appears twice |
| ShippedGroups.IndianTextAsMeant | src/isbn-xml-to-fst/test-cases:177 | the rule and the text meant for that ISBN are those of the test case |
| ShippedGroups.IndianEndToEnd | src/isbn-xml-to-fst/isbn-xml-to-fst.c:620-712 | in every document in which the Indian group governs that ISBN: the text meant is that of the test case, and the code writes the other |
| ShippedGroups.MexicanGap | src/cmd/isbn-range.xml:2531-2555 | every 978-968 ISBN is cut by the rule for four digits, also those whose digits behind the prefix lie in the gap of its rules |
| ShippedGroups.MexicanText | src/cmd/isbn-range.xml:2531-2555 | an ISBN in that gap, for which the code prints a text in four parts and not ENOENT |
| RangeSearch.RegistrantFits | src/isbn-xml-to-fst/isbn-xml-to-fst.c:675 | the seven digits at offset 4 are at most 9999999 and do not wrap |
| RangeSearch.RangeTestIsLexicographic | src/isbn-xml-to-fst/isbn-xml-to-fst.c:705 | the range test compares seven-digit strings |
| RangeSearch.FirstRuleIsFirst | src/isbn-xml-to-fst/isbn-xml-to-fst.c:699-709 | a rule is selected iff it contains the registrant, bounds included, and no rule before it does |
| RangeSearch.FirstRuleMisses | src/isbn-xml-to-fst/isbn-xml-to-fst.c:699-711 | the search fails iff no rule contains the registrant |
| RangeSearch.TileHitsOnce | src/inc/isbn-info.h:67-75 | rules without gap or overlap contain every number exactly once |
| RangeSearch.SearchIgnoresOrder | src/isbn-xml-to-fst/isbn-xml-to-fst.c:697-709 | the search selects the one matching rule of a tiling in whatever order the rules are listed |
| Texts.EveryIsbnLiesIn | src/isbn-xml-to-fst/isbn-xml-to-fst.c:599-617 | the results are about every string of 13 digits, whatever lies behind its NUL |
| Hyphenation.EndToEnd | src/isbn-xml-to-fst/isbn-xml-to-fst.c:620-712 | for any document, ISBN, memory behind it and buffer: ENOSPC iff the buffer has less than 18 bytes; otherwise the result is that of the section governing the ISBN and its first matching rule, ENOENT without one; a text is written iff len <= 8, the prefix has at least three digits, eight characters can be read behind it and the text fits the buffer; its layout is given index by index; the digits are conserved, and the text is the one meant, exactly for one-digit groups |
| Hyphenation.PackedEndToEnd | src/isbn-xml-to-fst/isbn-xml-to-fst.c:714-736 | packed into a block with room for it, the transducer gives the same result for every ISBN that does not begin with the last prefix to have gained states |
| Hyphenation.EnoentMeansGap | src/isbn-xml-to-fst/isbn-xml-to-fst.c:697-711 | with a buffer of 18 bytes, ENOENT comes back iff every section that governs the ISBN, of which there is at most one, has a gap at the registrant as the code reads it |
| Hyphenation.CoverageLeavesNoGap | src/isbn-xml-to-fst/isbn-xml-to-fst.c:697-711 | if the governing section's rules cover the seven-digit numbers, in any order, the result is not ENOENT |
| IsbnTables.PlaceHyphens | src/isbn-xml-to-fst/isbn-xml-to-fst.c:565-597 | the buffer holds the hyphenated text and a NUL, for every prefix of three digits or more behind which there is memory to read, and is unchanged behind it |
| IsbnTables.IsbnInfo.constructor | src/isbn-xml-to-fst/isbn-xml-to-fst.c:74-85 | the zeroed object stands for the empty tables, whose pending slice starts at 0 |
| IsbnTables.IsbnInfo.AddRule | src/isbn-xml-to-fst/isbn-xml-to-fst.c:217-240 | the new tables are those of the function the theorems are about |
| IsbnTables.IsbnInfo.AddRuleStr | src/isbn-xml-to-fst/isbn-xml-to-fst.c:242-297 | adds exactly the rule that the strings denote, or returns 2 and changes nothing |
| IsbnTables.IsbnInfo.AddPrefix | src/isbn-xml-to-fst/isbn-xml-to-fst.c:171-215 | the new tables, the transducer among them, and the code are those of the function the theorems are about |
| IsbnTables.IsbnInfo.Pack | src/isbn-xml-to-fst/isbn-xml-to-fst.c:722-724 | the packed copy takes the transducer's place and the tables stay the same |
| IsbnTables.IsbnInfo.HyphenateIsbn | src/isbn-xml-to-fst/isbn-xml-to-fst.c:620-712 | result and buffer, and the C string in it, are those of the end-to-end function, with the transducer or its packed copy |
| IsbnTables.Load | src/isbn-xml-to-fst/isbn-xml-to-fst.c:361-441 | any sequence of parser calls on a new object yields the tables of that run |
| Vectors.RoomMadeExactly | src/libfst/vec.c:49-75 | room is made for the index asked for, except when it equals the grown size; the grown size is 1.6 times the old one, or the index where that does not reach it, rounded down |
| Vectors.AppendsAreAmortised | src/libfst/vec.c:34-75 | over any run of appends every index fits, the elements moved are at most twice the capacity, and the capacity at most 1.6 times the appends |
| Vectors.AppendAll | src/libfst/vec.c:34-75 | any run of appends to a new vector of the class keeps the elements in order and has exactly the capacity and the moves that the bounds are about |
| Vectors.Vec.MakeRoom | src/libfst/vec.c:64-75 | the new capacity, the elements kept and the number moved |
| Lines.ListHoldsLine | src/libcscript/sgl-getline.c:117-153 | for a line without the character 10, followed by it: the list holds the line iff the line and that character have at most 64 * 1023 characters |
| Lines.LineIsDelivered | src/libcscript/sgl-getline.c:333-363 | what is delivered of such a line: its length, and its text iff it has at most 64 * 1023 characters with the newline |
| Lines.LastLineIsDelivered | src/libcscript/sgl-getline.c:341-344 | a last line without newline is delivered with its length, and with its text up to 63 * 1023 characters |
| Lines.PageCount | src/libcscript/sgl-getline.c:333-359 | a line fills the fewest pages that hold it and its newline |
| LineBuffers.SglAppend | src/libcscript/sgl-getline.c:117-153 | the slot handed out, the node linked when the last one is full, and the list left otherwise unchanged |
| LineBuffers.SglStrBuild | src/libcscript/sgl-getline.c:156-181 | the pages are joined in order and end with a NUL; the overrun check never fires |
| LineBuffers.SglStrlen | src/libcscript/sgl-getline.c:185-206 | the length of the joined pages |
| LineBuffers.Linebuf.SglFgetline | src/libcscript/sgl-getline.c:311-368 | the line ends at the first character 10 or with the data; the list left behind holds the pages joined in the buffer; buffer and list hold the line, and len is the length of the list, iff the line fits one node; the stream is left behind the newline, and eof is set iff there is none |

## Left out

- XML parsing and the path stack: the tables are driven by an arbitrary sequence of rules and groups instead.
- Command line, file iteration, printing and the dump functions: input, output and user interface.
- Allocation failure and exit codes: allocation succeeds.
- size_t overflow of lengths, indices and values: they are unbounded; UNDEF_INDEX is None. The 32-bit bounds and registrants wrap.
- fst_validate: its checks are empty.
- fst_copy_and_pack: its block has no room for the header, which fst_measure leaves out, and what the write behind it does is not modelled.
- Packing.FstPack: the block is supplied by the caller and must have room for the header, which the program's own block has not.
- What a read of state `len` in the packed block yields: the header is not in the block, the outcome is Fault.
- Fst.AddTransition: the transitions of a state are a sequence that is replaced, so the reallocation of the single transition vector is not modelled; the vector of states is an array.
- LineBuffers.SglAppend: the slots of a node are a sequence and a page is a value, so aliasing of pages is not modelled; the nodes are linked objects.
- LineBuffers.Linebuf.SglFgetline: input without NUL bytes and the newline as delimiter; fgets has its standard contract, and the other delimiters of fgets_endl are not modelled. After an unterminated last line of 64 pages or more the text is not determined.
- IsbnTables.IsbnInfo.HyphenateIsbn: the ISBN has 13 digits, as the source documents; other strings are not modelled.
- IsbnTables.IsbnInfo.AddPrefix: a prefix has at most 15 digits, the room of the source's buffer.
- Check digits and ISBN-10: not in the code.
