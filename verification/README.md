# cidrips, modelled in Dafny

cidrips reads a list of IPv4 (and, in its prototype, IPv6) addresses and
prefixes and aggregates them into fewer, wider CIDR blocks. This project
models three parts of it as pure Dafny over sequences:

- **The IPv4 pipeline of `cidrips.c`.**
  - The prefix order `addr_compare` (module `Prefix`).
  - The de-duplicating sorted list that `list_push_sorted` builds, and the fold of the input into it (`ZoneList`).
  - The multi-pass merge `compress` and the count-mode search over levels 0 to 32 (`Compress`).
  - The dotted-quad parser and printer (`V4Text`).
  - The escape decoder `strcpy_escaped` (`Escape`).
  - Linked lists are sequences of `Zone(prefix, count)`.
- **The `libcidrips` building blocks.**
  - The 17-byte little-endian counter of `bc134.c` (`Bc134`).
  - The address helpers of `addr.c` (`LibAddr`).
  - The zone list of `list.c` (`LibList`).
  - The insert-or-find binary search tree of `tree.c`, generic over its comparator (`Tree`), instantiated with `addr_compare` (`AddrTree`).
  - The page-bitmap slot allocator of `alloc.c` (`Alloc`).
- **The prototype text layer of `main.c`.**
  - The tokenizer `lex`, as a function from a string to tokens (`Lexer`).
  - The parser state machine `parse`, as a function over the tokens (`TextParser`, with its laws in `ParseLaws`, `DottedLaws` and `ParseEdges`).
  - The printer `s_print_addr` (`TextPrinter`).
  - The print-then-parse round trip and the cases of the file's test table (`TextRoundTrip`, `TextExamples`).
  - The parser reads the plain and the `::` forms of IPv6 text from section 2.2 of RFC 4291. It refuses the mixed form with a dotted IPv4 tail ("::ffff:1.2.3.4"): the `.` after a group meets a state that expects only a colon, the end or a blank (main.c:188, 290-293; ParseEdges.MixedFormRefused). As written it also accepts a `::` standing for no group, which is listed under Findings. The compact print follows section 4 of RFC 5952.

Shared vocabulary lives in `Arith` (powers of two, division facts), `Digits` (decimal and hexadecimal numerals), `Options` and `TextAddr`.

The model has no I/O. Memory exhaustion is a parameter:
- `avail`, a number of nodes the allocator can hand out;
- `mem`, a sequence of allocation outcomes;
- `grant`, whether a new page can be had.

Where the code differs from the documented behaviour, the model follows the code:
- In count mode, when no level reaches the target, the uncompressed input list is kept. The printed count and statistics are those of level 32.
- `compress` masks a run only at the current prefix length, so a wide prefix that follows a narrower one in the same block is absorbed into the narrower block.
- The defects the model exhibits are listed under Findings. Each has a model of the code as written and a corrected model.

## Model

| member | source | states |
|---|---|---|
| Prefix.Mask | cidrips.c:33-36 | the raw mask is the multiple of the block size 2^(32-cidr) at or just below the address: it lies within one block of the address and is aligned |
| Prefix.MaskUnique | cidrips.c:33-36 | any aligned value within one block below the address is the mask, so the mask is determined by the block |
| Prefix.Compare | cidrips.c:43-66 | `addr_compare` returns -1, 0 or 1, and 0 exactly when both prefix lengths agree and the values masked to that length agree |
| Prefix.CompareByEnd | cidrips.c:43-66 | `addr_compare` orders prefixes by the first address past their block, and a longer prefix sorts first on a tie |
| Prefix.CompareReflexive | cidrips.c:43-66 | every prefix compares equal to itself |
| Prefix.CompareAntisymmetric | cidrips.c:43-66 | swapping the arguments negates the result |
| Prefix.CompareTransitive | cidrips.c:43-66 | the order is transitive, so `addr_compare` is a strict total order on (masked value, prefix length) |
| Prefix.CompareSubstitute | cidrips.c:43-66 | prefixes that compare equal compare alike against every third prefix |
| V4Text.PrintParseV4 | cidrips.c:185-218 | parsing what `addr_print_v4` writes gives the prefix back: the dotted quad and `/cidr` exactly when cidr is not 32 |
| V4Text.ParseV4DefaultsToHost | cidrips.c:185-208 | four octets with nothing after them parse as that address with prefix length 32 |
| V4Text.ParseV4RejectsLongCidr | cidrips.c:197-204 | a `/n` suffix with n above 32 is refused |
| V4Text.ParseV4RejectsShort | cidrips.c:189-193 | fewer than four octets are refused |
| V4Text.ScanOctetsOfDotted | cidrips.c:189 | scanning the decimal octets joined by dots, followed by a non-digit, reads exactly those octets and the characters they span |
| V4Text.PackOctets | cidrips.c:205-218 | the four octets the printer extracts pack back into the 32-bit value |
| ZoneList.InsertBefore | cidrips.c:68-98 | the list grows by exactly the item, which sits at the given position |
| ZoneList.Remove | cidrips.c:121-141 | the list loses exactly the node at the position |
| ZoneList.RemoveInsertBefore | cidrips.c:68-141 | removing a node just inserted gives the list back |
| ZoneList.InsertBeforeRemove | cidrips.c:68-141 | putting a removed node back at its position gives the list back |
| ZoneList.Scan | cidrips.c:100-119 | the insertion point: every node before it compares below the item, and the node at it (if any) does not |
| ZoneList.PushSorted | cidrips.c:100-119 | a refused push leaves the list unchanged; an accepted one adds exactly the item at some position, and removing it there gives the old list |
| ZoneList.PushSortedDuplicate | cidrips.c:100-119 | on an ascending list the push is refused exactly when a node compares equal to the item |
| ZoneList.PushSortedAscending | cidrips.c:100-119 | an ascending list stays strictly ascending under `addr_compare` after a push |
| ZoneList.Ingest | cidrips.c:306-331 | folding the parsed tokens stops at the first token that fails to parse and reports its index; otherwise every token parsed |
| ZoneList.IngestSound | cidrips.c:306-331 | a successful fold is ascending, every zone counts its block's addresses and came from a token, and every token's block is present |
| ZoneList.Copy | cidrips.c:155-183 | `list_copy` succeeds exactly when memory suffices for every node; it appends the nodes in order, and a failure leaves the copied prefix behind |
| Compress.RunFrom | cidrips.c:868-877 | the inner scan stops at the first node not in the cursor's block at prefix length i; every node before it is in that block |
| Compress.RunLength | cidrips.c:864-877 | the run at the cursor is the cursor and the maximal following nodes in its block at prefix length i |
| Compress.BlocksShape | cidrips.c:862-897 | a pass cuts the list into non-empty blocks; a block of two or more nodes is a run in one block of prefix length i that counts at least `weight(i) >> level` |
| Compress.BlocksFlatten | cidrips.c:862-897 | the blocks of a pass, put back together, are the list: a pass neither drops nor reorders nodes before collapsing |
| Compress.PassCollapsesBlocks | cidrips.c:878-891 | a pass leaves one node per block: the survivor with prefix length i, the masked address and the run's sum for a folded run, the node itself otherwise |
| Compress.PassConserves | cidrips.c:864-891 | a pass keeps the sum of the counts |
| Compress.PassShrinks | cidrips.c:862-897 | a pass never makes the list longer |
| Compress.PassesConserve | cidrips.c:856-898 | passes from /31 down keep the sum of the counts and never lengthen the list |
| Compress.Measure | cidrips.c:893-895 | the statistics of the last pass are the node count, the addresses the blocks span and the sum of the counts |
| Compress.CompressList | cidrips.c:850-900 | `compress` returns the final list's length, no more than the input's, and its statistics report the input's total count |
| Compress.CountMode | cidrips.c:970-986 | levels are tried from 0 up on fresh copies; the first whose result has at most the target count is kept, a copy that runs out of memory ends the search, and with no good level the input is kept with level 32's count and statistics |
| Escape.Decode | cidrips.c:535-555 | an escape yields one control character exactly for n, r and t, and the backslash and the character otherwise |
| Escape.StrcpyEscaped | cidrips.c:516-561 | the loop writes the decoded text and never more characters than it reads |
| Escape.UnescapeAppend | cidrips.c:521-559 | decoding works piecewise, the second part starting in the escape state the first left |
| Escape.TrailingBackslashDropped | cidrips.c:521-560 | a lone backslash at the end of the input is dropped |
| Escape.PlainCopied | cidrips.c:523-533 | text without a backslash is copied unchanged |
| Escape.UnescapeEscape | cidrips.c:535-555 | decoding the escaped form of backslash-free text gives the text back |
| Bc134.ValueFromValue | libcidrips/src/bc134.c:4-15 | reading back the bytes of a number below 256^k gives the number, byte 0 least significant |
| Bc134.FromValueValue | libcidrips/src/bc134.c:4-15 | equal-length counters are equal exactly when their numbers are |
| Bc134.AddAt | libcidrips/src/bc134.c:7-13 | one carry chain adds its byte at its place, modulo 2^136, and adding 0 changes nothing |
| Bc134.Plus | libcidrips/src/bc134.c:4-15 | `bc134plus` leaves (v0 + v1) mod 2^136 in v0, and an all-zero v1 leaves v0 unchanged |
| Bc134.Cmp | libcidrips/src/bc134.c:17-28 | `bc134cmp` returns -1, 0 or 1, and 0 exactly when all 17 bytes agree |
| Bc134.CmpFromFirstDifference | libcidrips/src/bc134.c:19-25 | a non-zero result is the sign of the first differing byte from index 0 upward |
| Bc134.CmpAntisymmetric | libcidrips/src/bc134.c:17-28 | swapping the arguments negates the result |
| Bc134.CmpNotNumeric | libcidrips/src/bc134.c:19-25 | the counters 1 and 256 compare as 1 > 256: the scan starts at the least significant byte |
| Bc134.CmpHighNumeric | libcidrips/src/bc134.c:17-28 | comparing from the most significant byte down is comparing the numbers |
| Bc134.CmpNumeric | libcidrips/src/bc134.c:17-28 | the corrected comparison is the sign of the difference of the counters' numbers |
| Bc134.CounterBits | libcidrips/include/cidrips.h:6-9 | a 17-byte counter holds 136 bits |
| Bc134.RShift | libcidrips/src/bc134.c:54-68 | c = 0 leaves the number unchanged; for c >= 136 the loop does not run and the zero fill gives the number divided by 2^c, which is 0; at c = 135 the fill starts at byte 1 and the result is the number mod 256 |
| Bc134.RShiftAt135 | libcidrips/src/bc134.c:61-68 | at c = 135 the counter 1 stays 1, where 1 / 2^135 is 0 |
| Bc134.RShiftIntended | libcidrips/src/bc134.c:54-68 | the intended shift: a counter of the same size holding the number divided by 2^c, for every c |
| Bc134.RShiftAgrees | libcidrips/src/bc134.c:54-68 | for c = 0 and c >= 136 the shift as written is the intended one, byte for byte |
| LibAddr.SetAddr | libcidrips/src/addr.c:45-59 | the version is set; the 4 or 16 bytes are copied only when given; the prefix length changes only when the argument is non-negative; the other bytes are untouched |
| LibAddr.SetAddrIdempotent | libcidrips/src/addr.c:45-59 | setting the same thing twice is setting it once |
| LibAddr.SetAddrV4ReadBack | libcidrips/src/addr.c:45-59 | an IPv4 address set from four bytes reads back as their big-endian value |
| LibAddr.ZoneV4Weight | libcidrips/src/addr.c:61-64 | the weight of a /cidr zone is 2^(32-cidr) |
| LibAddr.ZoneV4WeightCountsBlock | libcidrips/src/addr.c:61-64 | the weight is the number of 32-bit values whose mask is the zone's |
| LibAddr.MaskRawV4 | libcidrips/src/addr.c:75-83 | for 1 <= cidr <= 32 the raw mask is the big-endian value with its low 32-cidr bits cleared: aligned and within one zone below the value |
| LibAddr.MaskRawV4Unique | libcidrips/src/addr.c:75-83 | the raw mask is the only aligned value within one zone below the address |
| LibAddr.SubZoneOf | libcidrips/src/addr.c:104-109 | on IPv4, with the haystack no longer than the needle, the result is true exactly when every address of the needle lies in the haystack |
| LibAddr.MasksAgreeIffContains | libcidrips/include/cidrips.h:42-47 | both values masked to the haystack's length agree exactly when the haystack contains the needle |
| LibAddr.ParseV4Agrees | libcidrips/src/addr.c:118-140 | the library parser succeeds exactly when the dotted-quad parser of cidrips.c does, and then stores version 4 and the same prefix |
| LibAddr.ParseV4BadSuffixChangesAddr | libcidrips/src/addr.c:118-140 | a refused suffix after four good octets still leaves those octets and prefix length 32 in the address |
| LibAddr.PrintParseV4 | libcidrips/src/addr.c:118-140 | what the dotted-quad printer writes, the library parser reads back to the same prefix |
| LibAddr.ZoneV6WeightAsWritten | libcidrips/src/addr.c:68-73 | the IPv6 weight as written is the counter 2^cidr |
| LibAddr.ZoneV6WeightAsWrittenInverted | libcidrips/src/addr.c:68-73 | as written, a single address gets weight 2^128 and the whole space weight 1 |
| LibAddr.ZoneV6Weight | libcidrips/src/addr.c:68-73 | the corrected IPv6 weight is the counter 2^(128-cidr), the number of addresses in the zone |
| LibList.ItemNew | libcidrips/src/list.c:6-16 | a new item has zeroed IPv4 and IPv6 counters, and allocation failure gives no item |
| LibList.Push | libcidrips/src/list.c:18-28 | the item becomes the tail and the earlier items are unchanged |
| LibList.CutSpliceBack | libcidrips/src/list.c:56-85 | the cut leaves the items before and after the run, and splicing the detached run back gives the original list |
| LibList.Remove | libcidrips/src/list.c:135-138 | exactly the item at the position is detached and the others keep their order |
| LibList.RemovePush | libcidrips/src/list.c:18-28 | removing the tail undoes a push |
| LibList.RemoveInsertBack | libcidrips/src/list.c:135-138 | putting the removed item back at its position gives the original list |
| LibList.PushFromTree | libcidrips/src/list.c:30-54 | the walk's addresses are pushed in order, each with its zone weight (the corrected IPv6 weight 2^(128 - cidr)) and `fully` 1; the result is 1 exactly when every allocation succeeded |
| LibList.GrantedStops | libcidrips/src/list.c:30-54 | after the first failed allocation nothing more is pushed |
| LibList.Copy | libcidrips/src/list.c:89-111 | the copy keeps order, address and the version's count, takes `fully` from the new item, and succeeds exactly when every allocation did; a failure leaves the items copied so far |
| LibList.Free | libcidrips/src/list.c:113-123 | every item is released and the list is left empty |
| LibList.Size | libcidrips/src/list.c:125-133 | the size is the number of items |
| Tree.FindOrInsert | libcidrips/src/tree.c:4-37 | an equal key on the search path is returned with the tree unchanged; otherwise the key is hung as a new leaf, the key set grows by it and no node moves |
| Tree.LookupComplete | libcidrips/include/cidrips.h:83-92 | in an ordered tree the search meets an equal key exactly when the tree holds one |
| Tree.InsertOrdered | libcidrips/src/tree.c:22-28 | inserting into an ordered tree keeps it ordered |
| Tree.OrderedAscending | libcidrips/src/tree.c:22-28 | the in-order walk of an ordered tree is strictly ascending |
| AddrTree.BeforeTotal | cidrips.c:43-66 | `addr_compare`, read as "sorts before", meets the tree's total-order requirement |
| AddrTree.InsertAscending | libcidrips/src/tree.c:4-37 | inserting a prefix keeps the tree ordered and its walk ascending under `addr_compare` |
| AddrTree.InsertDuplicate | libcidrips/src/tree.c:18-21 | a prefix naming a block already present returns that key and leaves the tree as it was; any other prefix is added |
| AddrTree.InsertKeepsVersion | libcidrips/src/tree.c:11 | a tree of one address version stays so when an address of that version is inserted |
| Alloc.PageBusyAsWrittenNever | libcidrips/src/alloc.c:16-20 | `page_busy` as written is false for every page, a full one included |
| Alloc.PageBusyIffFull | libcidrips/src/alloc.c:16-20 | the corrected `page_busy` holds exactly when all 64 slots are taken |
| Alloc.FirstFree | libcidrips/src/alloc.c:24-27 | the page chosen is the first one that is not busy, or one past the end when all are |
| Alloc.FirstFreeAsWrittenStuck | libcidrips/src/alloc.c:24-27 | as written the search always stops at the first page, even when it is full |
| Alloc.FirstOpenByte | libcidrips/src/alloc.c:40-46 | the byte scan stops at the first bitmap byte that is not 0xff |
| Alloc.LowestClearBit | libcidrips/src/alloc.c:47-49 | the bit scan stops at the lowest clear bit of the byte |
| Alloc.SetSlot | libcidrips/src/alloc.c:50 | setting bit j of byte k takes slot 8k+j and leaves every other slot as it was |
| Alloc.NodeAlloc | libcidrips/src/alloc.c:22-53 | the first page that is not busy is used, or a fresh page appended; the slot is the lowest free one, it is taken afterwards, and nothing else changes; there is no slot only when a new page was needed and could not be had |
| Lexer.ClassOf | main.c:69-161 | the character classes of `lex`: hexadecimal digits of either case make numbers, blanks make delimiters, and no character is end of file |
| Lexer.LexStep | main.c:69-161 | a non-empty input lexes as its first token and then the rest, or as an overflow when a run reaches the buffer size |
| Lexer.LexEnds | main.c:69-161 | the token sequence ends with end of file or overflow and has neither before |
| Lexer.LexNumbers | main.c:69-161 | number tokens are non-empty lower-case hexadecimal, shorter than the buffer |
| Lexer.LexMaximal | main.c:69-161 | a run token is never followed by a token of its own kind |
| Lexer.LexTexts | main.c:69-161 | without overflow the token texts spell the input, hexadecimal letters lower-cased |
| Lexer.LexNumber | main.c:69-161 | a hexadecimal number shorter than the buffer, followed by anything but a digit, is one token |
| Lexer.LexDelims | main.c:69-161 | a run of blanks shorter than the buffer is one delimiter token |
| TextParser.Suggest | main.c:237-264 | a block is invalid (0) exactly when longer than four characters, IPv4 (1) exactly when it is decimal and at most 255, and IPv6 (2) otherwise |
| DottedLaws.OctetSuggest | main.c:237-264 | a number is taken as an IPv4 octet exactly when the suggestion says IPv4 |
| DottedLaws.ParseDotted | main.c:398-411 | four numbers joined by dots parse exactly when all four are octets, to the IPv4 address of their decimal values with prefix 32 |
| DottedLaws.V4First | main.c:326-371 | a number followed by a dot starts an IPv4 address when it is an octet, and fails otherwise |
| ParseLaws.ParseFull | main.c:412-429 | eight hexadecimal groups joined by colons parse to the IPv6 address of their values with prefix 128 |
| ParseLaws.ParseCompressed | main.c:412-502 | groups around `::` parse to the groups before, then zeros, then the groups after, right-aligned, with prefix 128 |
| ParseLaws.LeadingDoubleColon | main.c:460-470 | a leading `::` moves the parser to the state after the double colon |
| ParseLaws.ParseRejectsFull | main.c:412-429 | the corrected parser refuses `::` with eight or more groups around it |
| ParseEdges.NoAddressAtEnd | main.c:321-322 | blanks and then the end of the input give 2, no address |
| ParseEdges.NoAddressInBlank | main.c:321-322 | an input of nothing but blanks, or empty, holds no address |
| ParseEdges.LongNumberRefused | main.c:504-506 | five or more hexadecimal digits at the start are refused as an invalid block |
| ParseEdges.MixedFormRefused | main.c:178-189 | the mixed form "::ffff:1.2.3.4" of section 2.2 of RFC 4291 is refused by both parsers: after a group read past `::` the state expects a colon, the end or a blank, and meets the dot |
| TextPrinter.ScanLongest | main.c:591-604 | the scan finds the leftmost longest run of two or more zero groups |
| TextPrinter.LongestUnique | main.c:591-604 | there is only one leftmost longest run |
| TextPrinter.Suffix | main.c:636-642 | the `/cidr` suffix is empty exactly when the prefix covers the whole address |
| TextPrinter.PrintV6 | main.c:591-642 | compact output writes the groups before the longest zero run, `::`, and the groups after; otherwise all eight groups in lower-case hexadecimal without leading zeros |
| TextPrinter.NoRunNoCompression | main.c:597-601 | a lone zero group is never replaced by `::` |
| TextPrinter.PrintAsWrittenLosesAddress | main.c:636-642 | as written, the eight-group form with a prefix below 128 writes only `/cidr` over the groups |
| TextPrinter.PrintAsWrittenExample | main.c:636-642 | 1:2:3:4:5:6:7:8/64 prints as "/64" as written, and in full when corrected |
| TextRoundTrip.LexJoin | main.c:69-161 | groups joined by colons lex as their number and colon tokens |
| TextRoundTrip.LexCompressed | main.c:69-161 | groups around `::` lex as their tokens, two colons between them |
| TextRoundTrip.RoundTripV6 | main.c:511-644 | the uncompressed and compact prints of every IPv6 address lex and parse back to the address |
| TextRoundTrip.RoundTripV4 | main.c:575-589 | the dotted print of every IPv4 address parses back to the address |
| TextRoundTrip.RoundTrip | main.c:268-644 | printing then parsing, with and without the `::` check, gives back every address with a full prefix |
| TextRoundTrip.ParseAsWrittenDrops | main.c:487-493 | as written, `::` with more than eight groups around it yields an address with groups overwritten; the corrected parser refuses it |
| TextRoundTrip.ParseAsWrittenOverwrites | main.c:487-493 | 1:2:3:4:5::6:7:8:9 parses as written to 1:2:3:4:6:7:8:9, and the corrected parser refuses the group 8 |
| TextExamples.ParseDocumentation | main.c:1007-1008 | 2001:0db8:85a3:0000:0000:8a2e:0370:7334 parses to the eight groups it spells, leading zeros and all, with prefix 128 |
| TextExamples.PrintDocumentation | main.c:1007-1008 | that address prints compactly as 2001:db8:85a3::8a2e:370:7334 |
| TextExamples.PrintLoopback | main.c:1019 | 0:0:0:0:0:0:0:1 prints as ::1 |
| TextExamples.PrintLeading | main.c:1014 | 1:0:0:0:0:0:0:0 prints as 1:: |
| TextExamples.PrintLeftmost | main.c:597 | of two equal zero runs the leftmost is compressed |
| TextExamples.ParseHundred | main.c:353-364 | 100::1 reads its first block as decimal and turns it back into the group 0x100 |
| TextExamples.PrintHundred | main.c:1024 | the address 100::1 prints as 100::1 |

## Left out

- Command line, file opening, input reading (`parse_input`'s getc loop and its row and column counters) and output writing. `ZoneList.Ingest` starts from the input already split into tokens.
- The statistics line of `main`: it uses floating point. `Compress.Measure` gives the two integer totals it is computed from.
- `libcidrips/src/compress.c`: not part of this model. It never resets its cursor between passes, and it relies on the broken IPv6 helpers.
- `addrcmp_v4` and `addrcmp_v6` of addr.c: their loop index is never initialised. The tree is instantiated with `addr_compare` of cidrips.c instead.
- `addr_parse_v6`, `addr_print` and `addr_mask_raw_v6` of addr.c: the first two have empty bodies, and the IPv6 mask numbers bits against the counter's layout.
- LibAddr.MaskRawV4: requires 1 <= cidr, because at cidr 0 the C shift by 32 is undefined.
- LibAddr.SubZoneOf: only the IPv4 branch is modelled.
- `bc134minus`: its loop condition is never true.
- Bc134.RShift: only c = 0 and c >= 135 are modelled. For 1 <= c <= 134 the loop starts at index 134 of the 17-byte buffer and reads and writes past it.
- `tree_node_walk` (an empty body), the parent pointer (always null) and `tree_free`. The assert in `tree_node_find` is not modelled (release behaviour).
- `node_free` and `nodes_cleanup` of alloc.c: the page search and the byte offset of `node_free` are wrong, and `nodes_cleanup` reads freed memory.
- In `main.c`: the `addrlist_*` list, the `_group` buffer, the quadratic merge loop of its `main`, `_ishexstr` and `subnode_weight_v6`.
- `list_remove`'s tail pointer: cidrips.c sets it to null when the last node goes. `compress` never reads it, so the sequence model carries no tail.
- Octets above 255 in the `sscanf` parsers are refused. With `%hhu` they would wrap, which is undefined input for the format.
- V4Text.ScanOctet: whitespace or a sign before a number is refused, where `%hhu` skips whitespace and accepts a sign. Its callers pass only the characters 0-9, '.' and '/' (the `parse_input` switch, cidrips.c:255-266, and the character mask of `read_addr_list`, cidrips/src/input.c:19-22), so those inputs never reach it.
- `level` is below 64 in `Compress.CompressList`, because the C shift by level is undefined from 64 on.
- Memory allocation is an outcome given as a parameter. The model does not track freed memory or pointers.
- ZoneList.Ingest: neither PARSE_EMEM return is modelled: not the one when the first list item cannot be allocated (cidrips.c:241-245), and not the one when allocating the next item fails after a push (cidrips.c:318-322). Every allocation is taken to succeed.
- `lex`'s row and column tracking and the text of parser error messages. Errors are kept as `Error` values.
- The `sprintf` return codes in `s_print_addr` and `s_print_v6_block_part`: the model writes strings.
- TextRoundTrip.RoundTrip: only addresses with a full prefix (/32, /128) round-trip, because `parse` has no syntax for a `/cidr` suffix.
- LibList.Cut: its ensures gives only the sizes. Its content is stated by LibList.CutSpliceBack.
- Compress: containment and non-overlap of the output blocks are not claimed.

## Findings

| source | as written | input that shows it | evidently intended | confidence | as-written member | corrected member |
|---|---|---|---|---|---|---|
| libcidrips/src/alloc.c:16-20 | `~page->busy[k] == 0` promotes the byte to int, so the complement of 0xff is -256 and never 0; `page_busy` is always false | a page with all 64 slots taken | a page is busy exactly when every bitmap byte is 0xff | high (not executed) | Alloc.PageBusyAsWrittenNever, Alloc.FirstFreeAsWrittenStuck | Alloc.PageBusyIffFull, Alloc.NodeAlloc |
| main.c:636-642 | the eight-group form writes `/cidr` at the start of the buffer, over the groups | 1:2:3:4:5:6:7:8/64 prints as "/64" | the suffix follows the groups | high (not executed) | TextPrinter.PrintAsWrittenLosesAddress, TextPrinter.PrintAsWrittenExample | TextPrinter.Print, TextPrinter.PrintV6 |
| main.c:487-493 | `::` is accepted with eight or more groups around it: with eight it stands for no group, with nine or more the groups after it overwrite those before | 1:2:3:4:5::6:7:8:9 parses to 1:2:3:4:6:7:8:9 | `::` stands for at least one zero group, so such input is refused | high (not executed) | TextRoundTrip.ParseAsWrittenOverwrites, TextRoundTrip.ParseAsWrittenDrops | ParseLaws.ParseRejectsFull, TextRoundTrip.RoundTrip |
| libcidrips/src/bc134.c:17-28 | `bc134cmp` decides by the first differing byte from index 0, the least significant byte of the counter | the counters 1 and 256: compares 1 > 256 | compare from the most significant byte down, that is, by number | medium (not executed) | Bc134.CmpNotNumeric | Bc134.CmpNumeric, Bc134.CmpHighNumeric |
| libcidrips/src/addr.c:68-73 | the IPv6 zone weight sets bit `cidr` of the counter | cidr 128 gives 2^128, cidr 0 gives 1 | bit 128 - cidr, the number of addresses in the zone | high (not executed) | LibAddr.ZoneV6WeightAsWrittenInverted | LibAddr.ZoneV6Weight, LibList.PushFromTree |
| libcidrips/src/bc134.c:61-68 | at c = 135 the shift loop does not run and the zero fill starts at byte 1, so byte 0 survives | c = 135 on the counter 1 gives 1 | the number divided by 2^135, here 0: every byte cleared once c > 134 | high (not executed) | Bc134.RShift, Bc134.RShiftAt135 | Bc134.RShiftIntended, Bc134.RShiftAgrees |
