# Verified models of the collector libraries

Dafny models of the algorithmic C code behind the collectors, each proved against what the code is for.

- JSON trees: pointers, comparison, JSON Patch (RFC 6902), Merge Patch (RFC 7396), parser, printer, minifier, deep copy
  and child lists (`main/cJSON_Utils.c`, `main/cJSON.c`)
- the two-level IP range index (`ext/ip2region/ip2region.c`)
- the chained hash map and its prime search (`main/cel_hashmap.c`, `main/cel_math.c`)
- Base64, and the streaming parts of SHA-256 and MD5 (`main/mbedtls_base64.c`, `main/mbedtls_sha256.c`, `main/cel_md5.c`)
- the list between two sentinels (`main/cel_link.c`)

`dafny verify dfyconfig.toml` checks everything.

## How the model is built

A cJSON tree is a `Json` value whose children form a chain of named nodes; `Meaning` forgets member order and maps it
to a `Value`, where objects are finite maps. Theorems about patches speak of meanings, so they hold for every member
order. Loops of the C code are methods with loops, proved equal to a function of their inputs; objects whose fields
change are classes. Where links are the point - sorting, child lists, deep copies, hash chains, the sentinel list - the
nodes are heap objects and contracts describe the sequence of nodes behind the links. Whole documents carry, beside their
value, a record of the links that in-place sorting leaves behind (`Linking`): patches and merges are functions of both,
and end in `Broken` where the code would write through such a link.

The main theorems:

| area | theorem |
|---|---|
| JSON Patch | `PatchRoundTrip`: generate, then apply, gives the target; `ApplyDoes`, `ApplyImplementsRfc`, `ListImplementsRfc`, `SucceedsIffRfcAllows`: what apply_patch does with every operation, and where that is RFC 6902; `BreaksIff`: when it writes through a stale link; `FailureKeepsMeaningIff`, `StatusMeans`: what a failure leaves behind and says; `WrittenApplies`, `WrittenListApplies`: the same for patch documents spelled out |
| Merge Patch | `MergeImplementsRfc`: merge_patch is RFC 7396; `MergeRoundTrip`: generate, then merge, gives the target exactly when that can be expressed; `MergesIff`: when merging writes through a stale link |
| pointers | `PointerFindsNode`: search, then lookup, returns the same node; `EscapedLookup`: the lookup follows RFC 6901 for all names |
| text | `AcceptedIff`, `RfcTextIsRead`: the language that is parsed, and the trees; `PrintThenParse`, `ParseThenPrint`: printing and parsing invert; `TextLaid`: how a printed text is laid out; `MinifyIsTight`: minifying keeps exactly the tokens |
| literals | `LiteralMeaning`, `LiteralRefused`, `EstimateSuffices`: escapes become UTF-8 or are refused, and any input fits the size estimate |
| sorting | `SortList`: the relinking merge sort is the sequence sort; `CaseSensitiveSortIff`: when the order is that of strcmp |
| IP index | `MemorySearch`, `BinarySearch`, `BtreeSearch` all equal a plain scan; `FileSearched`: on a file written from a list of ranges they return the record of the right one |
| hash map | `Run`: every run of calls is a run on a finite map, with the same answers; `NextPrime` ends because primes are unbounded |
| codecs | `EncodeIsRfc`, `ValidIff`, `RoundTrip`, `NeverTooLong` for Base64; `UpdateAll`, `Finish`, `Final` for the digests |

Where code and expectation part, the model follows the code and says exactly when it works:

- pointer escaping keeps a tilde escape apart from RFC 6901: `EscapingWorksIffNotNeeded`
- letters behind a leading digit count as digits of an index, and an empty token is index 0: `IndexReadRightIff`, `LettersReadAsDigits`
- the sort folds case whatever its flag says: `CaseSensitiveSortIff`, `CompareIgnoresOrderIff`
- a sorted child list can keep a stale link at its head, and taking the head out then closes a cycle: `SortChildren`, `CleanWhenFirstLeads`, `Unlink`; so a removal after a test, or a merge into the tree a patch was generated from, can destroy the document: `BreaksIff`, `TestThenRemoveBreaks`, `MergesIff`, `MergingBackBreaks`
- members are taken out by name folding case, even where case counts: `TakesByNameIff`, `RemoveIsRfcIff`, `ReplaceIsRfcIff`
- the last name of a path is unescaped without moving what is behind a tilde: `LastTokenDecodesIff`
- a copy or move onto the root is refused, a move below itself may succeed: `SucceedsIffRfcAllows`, `MoveToRootRefused`, `MoveBelowItselfSucceedsIff`
- a failing move or replacement may have taken something out: `FailureKeepsMeaningIff`
- a merge patch cannot set a member to null: `MergeRoundTrip`, `NullMemberGetsLost`
- merge patches walk members sorted folding case in the order of strcmp, below the first level even where case counts, and can remove a member that stays: `GenerateMayLose`
- a preallocated print needs one character more than text and terminator: `PrintPreallocated`
- control characters count as whitespace: `AcceptedIff`
- a block comment that begins with a slash is taken to end there: `CommentEndsIff`
- squares of odd primes pass the prime test: `TestMeans`
- one SHA-256 update of 2^32 bytes or more is counted short: `Update`
- an MD5 update of nearly 2^31 bytes behind buffered ones overruns the buffer: `CopyFitsIff`
- with a small load factor one rebuild is not enough: `Put`, `RoomAfterRebuild`, `TooSmallFactor`

## Model

| member | source | states |
|---|---|---|
| `CStrings.CompareLoop` | main/cJSON_Utils.c:73-99 | the comparison loop gives the difference of the first characters that disagree, folded or not |
| `CStrings.CompareAtFirst` | main/cJSON_Utils.c:73-99 | where two strings first disagree, the result is the difference of the characters there, folded or not, the terminator counting as 0 |
| `CStrings.FoldsCapitals` | main/cJSON_Utils.c:73-99 | folding takes exactly the 26 capitals to their small letters |
| `CStrings.CompareZero` | main/cJSON_Utils.c:73-99 | the result is 0 exactly for equal strings, or when folding for strings equal up to case |
| `CStrings.CompareAntisymmetric` | main/cJSON_Utils.c:73-99 | swapping the strings swaps the sign |
| `CStrings.CompareTransitive` | main/cJSON_Utils.c:73-99 | the order is transitive, strictly so when one of the two steps is strict |
| `CStrings.CompareFoldsToCase` | main/cJSON.c:97-118 | on strings without upper-case letters folding makes no difference |
| `Sorting.SortPermutes` | main/cJSON_Utils.c:460-568 | sorting keeps exactly the nodes of the list |
| `Sorting.SortOrders` | main/cJSON_Utils.c:460-568 | the case-insensitive sort leaves the keys in nondecreasing order |
| `Sorting.SortIgnoresFlag` | main/cJSON_Utils.c:474-513 | on keys that strcmp and the folding comparison put in the same order both flags give the same list |
| `Sorting.CaseSensitiveSortIff` | main/cJSON_Utils.c:460-568 | the case-sensitive sort puts every arrangement of the keys in the order of strcmp exactly when the two orders never disagree and, from three keys on, no two different keys are equal up to case |
| `Sorting.CaseSensitiveSortMayFold` | main/cJSON_Utils.c:474-513 | two lists of names outside that condition: a and B, and a, A and b |
| `Sorting.WinnerIsFirst` | main/cJSON_Utils.c:460-568 | the first key after sorting is the winner of a tournament over the halves, found without sorting |
| `SiblingLists.MergeLists` | main/cJSON_Utils.c:510-567 | the in-place merge relinks two disjoint chains into one, node for node as the sequence merge |
| `SiblingLists.Middle` | main/cJSON_Utils.c:485-496 | the two-speed walk ends at the first node of the second half |
| `SiblingLists.SortList` | main/cJSON_Utils.c:460-568 | the in-place merge sort: the next chain is the sorted sequence of the same nodes, every prev link but the head's is right, the head's is as it was |
| `SiblingLists.Parent.SortChildren` | main/cJSON_Utils.c:570-577 | the children are sorted; the first one has no predecessor exactly when that was so and the first child wins the tournament, for either flag |
| `SiblingLists.CleanWhenFirstLeads` | main/cJSON_Utils.c:570-577 | without the flag that is so exactly when the first name is strictly in front of all others |
| `SiblingLists.Parent.Add` | main/cJSON.c:1844-1871 | appending puts the node at the end of the child sequence |
| `SiblingLists.Parent.Detach` | main/cJSON_Utils.c:373-403 | detaching takes the node at the position out and clears its links; what is left is a list exactly if the node is not the first one or has no predecessor; nothing happens behind the end |
| `SiblingLists.Parent.Unlink` | main/cJSON.c:2071-2099 | relinking the neighbours removes the given child; it closes a cycle exactly if the child is the first one and sorting has left it a predecessor |
| `SiblingLists.SortThenTakeFirst` | main/cJSON.c:2071-2099 | two children out of order, sorted, and the first one taken out: the other has become its own successor |
| `SiblingLists.Parent.Insert` | main/cJSON_Utils.c:668-703 | inserting puts the node in front of the position, at the end too, and refuses positions behind it |
| `SiblingLists.Parent.Replace` | main/cJSON.c:2170-2203 | replacing exchanges one child, keeps all others and clears the links of the old one, and goes wrong in the same case |
| `Duplicating.Duplicate` | main/cJSON.c:2550-2627 | a deep copy of a heap tree, whatever its prev links, consists of new nodes linked in both directions, represents the same tree, and leaves the source as it was |
| `Pointers.DecodeArrayIndexFromPointer` | main/cJSON_Utils.c:254-279 | the loop reads what the specification reads, upper digit bound on the first character only |
| `Pointers.IndexRoundTrip` | main/cJSON_Utils.c:254-279 | a printed index is read back as the same number, whatever token follows |
| `Pointers.DecodesTo` | main/cJSON_Utils.c:254-279 | what the decoder makes of every token: exactly the empty one, and a digit with nothing below the digits behind it, are taken for an index |
| `Pointers.IndexReadRightIff` | main/cJSON_Utils.c:254-279 | the decoder follows section 4 of RFC 6901 exactly on tokens that are not empty and have no character above the digits behind a leading digit |
| `Pointers.DecodeImproperIndex` | main/cJSON_Utils.c:254-279 | all other tokens that are no array index are refused |
| `Pointers.LettersReadAsDigits` | main/cJSON_Utils.c:265-274 | tokens that are misread: 1a is index 59, 1: is index 20, the empty token is index 0 |
| `Pointers.EncodeStringAsPointer` | main/cJSON_Utils.c:155-177 | the escaping loop writes the specified escaped name and its terminator and nothing else, in any memory |
| `Pointers.EncodedLength` | main/cJSON_Utils.c:139-177 | the length computed first is the length of the escaped name |
| `Pointers.DecodePointerInPlace` | main/cJSON_Utils.c:339-370 | unescaping in place leaves the specified text in front of the terminator |
| `Pointers.ComparePointersLoop` | main/cJSON_Utils.c:102-136 | the token comparison loop decides the specified match |
| `Pointers.EscapedMatches` | main/cJSON_Utils.c:102-136 | a token escaped as section 3 of RFC 6901 says matches exactly the name it stands for, up to case when folding |
| `Pointers.PlainMatches` | main/cJSON_Utils.c:102-136 | a token without tilde and slash matches exactly the names it spells |
| `Pointers.EscapingWorksIffNotNeeded` | main/cJSON_Utils.c:155-177 | an escaped name matches itself, whatever the memory held, exactly when it contains neither tilde nor slash |
| `Pointers.GetItemFromPointer` | main/cJSON_Utils.c:281-326 | the cursor walk finds the node that the token-by-token lookup finds |
| `Pointers.FindPointerFromObjectTo` | main/cJSON_Utils.c:179-239 | the search returns a pointer exactly for nodes of the tree, built from indices and escaped names |
| `Pointers.PointerFindsNode` | main/cJSON_Utils.c:179-326 | looking up the pointer written for a node finds that very node, for every node of a tree with distinct searchable names |
| `Escaping.TestByAnyNames` | main/cJSON_Utils.c:806-811 | a case-sensitive test by an escaped pointer decides whether the values agree, for all names on the way |
| `Escaping.LastTokenDecodesIff` | main/cJSON_Utils.c:339-370 | unescaping an escaped name gives it back exactly if it has no slash and all its other characters stand where they stand in the escaped form |
| `Escaping.EscapedLookup` | main/cJSON_Utils.c:281-326 | the case-sensitive lookup finds what RFC 6901 refers to for all names, and nothing else unless an array meets a misread token |
| `Comparing.SortedNodes` | main/cJSON_Utils.c:570-577 | sorting an object with names on which both orders agree makes its keys strictly ascending and keeps its meaning |
| `Comparing.CompareJsonMeans` | main/cJSON_Utils.c:579-665 | compare_json decides whether two trees mean the same value, and only reorders them, for names on which both orders agree |
| `Comparing.CompareIgnoresOrderIff` | main/cJSON_Utils.c:579-665 | the case-sensitive comparison finds an object the same as all its rearrangements exactly when the case-sensitive sort gets its names right |
| `Comparing.CaseSensitiveCompareDependsOnOrder` | main/cJSON_Utils.c:579-665 | for all other names it tells the object from some object that means the same |
| `Comparing.FindNameIsFindKey` | main/cJSON.c:1772-1798 | the lookup by name finds the first member of that name |
| `Comparing.SameIffSameMeaning` | main/cJSON.c:2799-2922 | cJSON_Compare holds exactly between trees that mean the same value |
| `Comparing.SameIsEquivalence` | main/cJSON.c:2799-2922 | so it is reflexive, symmetric and transitive and does not see member order |
| `Comparing.SameIsComplete` | main/cJSON.c:2799-2922 | trees with an invalid node anywhere are the same as nothing, themselves included |
| `Patching.LeadsNowhere` | main/cJSON_Utils.c:281-326 | a pointer to a place that does not exist finds nothing, if no array meets a misread token on the way |
| `Patching.LeadsWhereRead` | main/cJSON_Utils.c:281-326 | a pointer of any plain tokens leads where the RFC lookup leads for the tokens as the decoder reads them |
| `Patching.Resolves` | main/cJSON_Utils.c:281-326 | a pointer of plain tokens leads to the value that the RFC 6901 lookup gives |
| `LinkedPatching.TakePath` | main/cJSON_Utils.c:406-457 | detaching at a path, which fails when nothing is there, leaves the document and the item that the value form gives, or breaks |
| `LinkedPatching.TakesHeadIff` | main/cJSON_Utils.c:406-457 | it breaks exactly if the path names the first member of an object with a stale link |
| `CaseFolding.TakesByNameIff` | main/cJSON_Utils.c:406-457 | a member is taken out by its very name, or not at all, exactly if folding case no other name comes first |
| `CaseFolding.TakesTheOther` | main/cJSON_Utils.c:437-441 | asked for A, the code takes out a |
| `CaseFolding.RemoveIsRfcIff` | main/cJSON_Utils.c:862-878 | case-sensitive removal is the RFC removal exactly under that condition where the path leads |
| `CaseFolding.ReplaceIsRfcIff` | main/cJSON_Utils.c:862-996 | case-sensitive replacement is the RFC replacement exactly under that condition where the path leads |
| `CaseFolding.MoveMayCoincide` | main/cJSON_Utils.c:880-996 | a case-sensitive move of the wrong member can come to the right result |
| `Linking.SortTree` | main/cJSON_Utils.c:570-577 | sorting an object takes the links of its members along; its first member keeps a stale link exactly if it had one or another member was first |
| `Linking.TakeKid` | main/cJSON.c:2071-2099 | taking a child out breaks exactly at the first child of a list with a stale link |
| `Patching.AddPathIsAddAt` | main/cJSON_Utils.c:934-996 | the add step is the RFC addition: insert, append at -, or set a member |
| `LinkedPatching.ApplyDoes` | main/cJSON_Utils.c:782-1009 | status and meaning of the document after any operation with pointers of plain tokens that does not break |
| `LinkedPatching.BreaksIff` | main/cJSON_Utils.c:782-1009 | an operation breaks exactly if what it takes out, or adds in place of, is the first member of an object with a stale link |
| `LinkedPatching.ApplyImplementsRfc` | main/cJSON_Utils.c:782-1009 | every operation that RFC 6902 allows, but for moves and copies onto the root, has status 0 and turns the meaning of the document into what the RFC says, unless it breaks |
| `LinkedPatching.ListImplementsRfc` | main/cJSON_Utils.c:1011-1067 | a list of patches that the RFC allows, tests included, is carried out as the RFC says, unless one breaks |
| `Writing.WrittenIsRead` | main/cJSON_Utils.c:717-762 | a patch object with the members section 4 of RFC 6902 asks for, names spelled out, in any order and with others beside them, is read as that operation |
| `Writing.WriterWrites` | main/cJSON_Utils.c:717-762 | each of the six operations, written as an object, with its members in any order, is such a patch |
| `Writing.WrittenApplies` | main/cJSON_Utils.c:782-1009 | applying a written operation that the RFC allows, but for moves and copies onto the root, does what the RFC says and breaks exactly where a stale link is followed |
| `Writing.WrittenListApplies` | main/cJSON_Utils.c:1011-1067 | a list of written operations that the RFC allows is carried out as the RFC says, unless one breaks |
| `Writing.NoOperation` | main/cJSON_Utils.c:791-804 | without a string path the status is 2, with one and no op of the six names it is 3, and for no other patch; the document stays as it was |
| `Writing.NoObject` | main/cJSON_Utils.c:791-797 | a patch that is no object has status 2 and leaves the document as it was |
| `Failing.StatusMeans` | main/cJSON_Utils.c:782-1009 | which of the statuses 1, 4, 5, 7 and 13 a patch ends with, each exactly when; 9, 10 and 11 come from adding only |
| `Failing.AddStatus` | main/cJSON_Utils.c:934-1008 | adding ends with 9 without a parent container, 11 at what is no index, 10 behind the end of an array, and 0 otherwise |
| `LinkedPatching.NothingBreaks` | main/cJSON_Utils.c:1011-1067 | in a document with clean links a list without tests breaks nowhere and leaves clean links |
| `LinkedPatching.TestThenRemoveBreaks` | main/cJSON_Utils.c:806-878 | after a test of the whole document in which the first member moves, removing the new first member breaks |
| `LinkedPatching.TestedPairBreaks` | main/cJSON_Utils.c:806-878 | an object with the members b and a is such a document, and a the member |
| `LinkedPatching.SucceedsIffRfcAllows` | main/cJSON_Utils.c:782-1009 | unless it breaks, a success is one of the RFC exactly when no array meets a misread token, the whole document is not removed and nothing is moved below itself; a failure is one of the RFC exactly unless a value is moved or copied onto the root |
| `LinkedPatching.TestPasses` | main/cJSON_Utils.c:806-811 | a test never breaks, succeeds exactly when the values agree, and keeps the meaning of the document, though not its links |
| `Patching.CopyToRootRefused` | main/cJSON_Utils.c:934-953 | copying onto the whole document, which the RFC allows, fails |
| `Patching.MoveToRootRefused` | main/cJSON_Utils.c:880-953 | moving onto the whole document, which the RFC allows, fails, and what was to be moved is gone |
| `Patching.MoveBelowItselfSucceedsIff` | main/cJSON_Utils.c:880-996 | a move below itself, which the RFC forbids, succeeds exactly when the target can be reached once the source is taken out |
| `Patching.MoveBelowItselfMaySucceed` | main/cJSON_Utils.c:880-996 | a document and a patch with which it does |
| `Failing.FailureKeepsMeaningIff` | main/cJSON_Utils.c:782-1009 | a failing patch leaves the meaning of the document as it was exactly unless it is a move that finds its source or a replacement that finds its target and has no value |
| `Failing.DetachedFits` | main/cJSON_Utils.c:862-996 | where something has been taken out, adding cannot fail |
| `Documents.GetObjectItem` | main/cJSON.c:1772-1798 | the search along the siblings finds the first match |
| `Documents.CompareInPlace` | main/cJSON_Utils.c:579-665 | the two-list walk computes the verdict and the trees as it leaves them |
| `Documents.Document.Detach` | main/cJSON_Utils.c:406-457 | document, links and detached item after detaching; unchanged when there is none |
| `Documents.Document.Add` | main/cJSON_Utils.c:934-1008 | status, document and links after the last part of apply_patch, or that it breaks |
| `Documents.Document.Apply` | main/cJSON_Utils.c:782-1009 | status, document and links after one patch, in all its branches, or that it breaks |
| `Documents.Document.ApplyPatches` | main/cJSON_Utils.c:1011-1067 | patches are applied in order up to the first that fails or breaks |
| `Generating.ReadComposed` | main/cJSON_Utils.c:1069-1107 | apply_patch reads back from a composed patch the operation, the path and the value it was composed of |
| `Documents.PatchArray.CreatePatches` | main/cJSON_Utils.c:1114-1252 | the generating walk appends exactly the specified patches |
| `Generating.PatchesEncodePlan` | main/cJSON_Utils.c:1114-1252 | the generated patches are a plan of RFC 6902 operations, written as JSON |
| `Generating.NoPatchIff` | main/cJSON_Utils.c:1114-1252 | two trees give no patch exactly if compare_json takes them for the same |
| `Generating.NoPatchMeans` | main/cJSON_Utils.c:1114-1252 | trees of one meaning, and no others, give no patch |
| `Generating.PlanRuns` | main/cJSON_Utils.c:1136-1252 | running the plan exchanges the value at a path for the target and changes nothing else |
| `LinkedPatching.PatchRoundTrip` | main/cJSON_Utils.c:1114-1252 | applying the generated patches to any tree that means what the first tree means gives the second tree: always if its links are clean, otherwise unless a patch breaks |
| `Documents.PatchCopy` | main/cJSON_Utils.c:1254-1282 | generating and applying through the in-place code turns a copy of the first tree into the second |
| `Merging.MergeImplementsRfc` | main/cJSON_Utils.c:1294-1351 | merge_patch computes MergePatch of section 2 of RFC 7396 on meanings and keeps keys distinct |
| `LinkedMerging.MergeInPlace` | main/cJSON_Utils.c:1294-1351 | the loop over the members of the patch does what the recursive form says, links included |
| `LinkedMerging.MergesIff` | main/cJSON_Utils.c:1294-1351 | merging breaks exactly if the patch names the first member of an object with a stale link |
| `Merging.GenerateInPlace` | main/cJSON_Utils.c:1363-1439 | the merging walk over two sorted lists builds the specified merge patch |
| `Merging.GeneratesDifference` | main/cJSON_Utils.c:1363-1439 | the generated patch means the difference; it is missing exactly for objects that mean the same |
| `Merging.MergeUndoesDiff` | main/cJSON_Utils.c:1294-1439 | merging the difference gives the target exactly when no changed member has to become null |
| `LinkedMerging.MergeRoundTrip` | main/cJSON_Utils.c:1294-1439 | merging the generated patch gives the second tree exactly when that can be expressed, always with clean links, otherwise exactly if the patch spares the first members with stale links |
| `LinkedMerging.MergingBackBreaks` | main/cJSON_Utils.c:1363-1439 | merging a patch back into the tree that generating has just sorted breaks if the patch names a first member that has moved |
| `Merging.NullFreeIsExpressible` | main/cJSON_Utils.c:1363-1439 | a target without null members outside arrays meets the condition |
| `Merging.NullMemberGetsLost` | main/cJSON_Utils.c:1363-1439 | a member that is null in the target is lost |
| `Merging.GenerateMayLose` | main/cJSON_Utils.c:1363-1439 | two objects with the names B and a, on which strcmp and the folding order disagree: sorted folding case, and inside a member whatever the flag, the patch removes B, which stays |
| `PrintBuffers.PrintBuffer.Ensure` | main/cJSON.c:373-458 | room is made exactly when it fits the limit, without losing what has been printed |
| `PrintBuffers.PrintBuffer.UpdateOffset` | main/cJSON.c:461-471 | counting to the terminator finds the end of the printed text |
| `PrintBuffers.PrintBuffer.PrintString` | main/cJSON.c:827-946 | the escaped literal is printed behind the text, exactly when it and two more characters fit |
| `PrintBuffers.PrintBuffer.CountEscapes` | main/cJSON.c:857-885 | the first loop counts the characters that escaping adds |
| `PrintBuffers.PrintBuffer.PrintNumber` | main/cJSON.c:474-537 | the decimal digits of an integer are printed; the temporary buffer is large enough |
| `PrintBuffers.PrintBuffer.PrintArray` | main/cJSON.c:1435-1494 | prints brackets, elements and commas, and restores the depth |
| `PrintBuffers.PrintBuffer.PrintObject` | main/cJSON.c:1606-1717 | prints braces, members, tabs and line ends, and restores the depth |
| `PrintBuffers.PrintBuffer.PrintValue` | main/cJSON.c:1267-1338 | the buffer then holds the old text and the text of the tree; success exactly for complete trees whose text and two more characters fit |
| `PrintBuffers.PrintPreallocated` | main/cJSON.c:1192-1209 | succeeds exactly when the array has two characters more than the text |
| `PrintBuffers.Print` | main/cJSON.c:1087-1160 | returns the text and its terminator in an array of that size |
| `PrintBuffers.NumberFits` | main/cJSON.c:474-537 | an integer below 10^15 in magnitude prints in at most 25 characters |
| `Printing.TextNulFree` | main/cJSON.c:1267-1338 | a printed text contains no terminator |
| `Layouts.TextLaid` | main/cJSON.c:1267-1717 | the printed text is the text of a layout given gap by gap: formatted, every member and closing brace of an object on a new line indented by tabs, a tab behind the colon, a blank behind the comma of an array; unformatted, no gap at all |
| `Layouts.LayoutSpells` | main/cJSON.c:827-946 | that layout is RFC 8259 and spells the tree printed, each character of a string escaped as it is read back |
| `Literals.ParseHex4Loop` | main/cJSON.c:540-573 | four digits give their number, anything else gives 0 |
| `Literals.HexRead` | main/cJSON.c:540-573 | four characters that write a number in hexadecimal digits, each in either case, are read as that number, and no others are; all others give 0 |
| `Literals.StoreUtf8` | main/cJSON.c:577-695 | the bytes filled in backwards are the UTF-8 form of the code point |
| `Literals.Utf8RoundTrip` | main/cJSON.c:645-690 | decoding as in section 3 of RFC 3629 gives the code point back, whatever follows |
| `Literals.FindEndLoop` | main/cJSON.c:698-740 | the first pass finds the closing quote and counts the size estimate |
| `Literals.EstimateSuffices` | main/cJSON.c:698-824 | for any input, well formed or not, the second pass writes no more than the first pass counted |
| `Literals.DecodeLoop` | main/cJSON.c:742-800 | the second pass stays inside an array of the estimated size and writes the decoded bytes |
| `Literals.ParseStringLoop` | main/cJSON.c:698-824 | both passes together return the specified text and end |
| `Literals.LiteralMeaning` | main/cJSON.c:577-824 | every literal of section 7 of RFC 8259 is read as the UTF-8 form of its code points, surrogate pairs joined, escapes by letter as in the table of the RFC |
| `Literals.ShortEscapeIsTable` | main/cJSON.c:758-782 | exactly the letters b f n r t, the quote, the backslash and the slash are escapes, for code points 8, 12, 10, 13, 9, 34, 92 and 47 |
| `Literals.LiteralRefused` | main/cJSON.c:577-824 | a closed literal is refused at its first escape that is an unknown letter, too short, or half a surrogate pair |
| `Parsing.ParseValue` | main/cJSON.c:1212-1264 | a parsed value ends behind its start and in front of the terminator |
| `ParseBuffers.ParseBuffer.SkipWhitespace` | main/cJSON.c:963-981 | skips to the first character above a blank, and steps back from the end |
| `ParseBuffers.ParseBuffer.ParseNumber` | main/cJSON.c:266-340 | copies at most 63 number characters and reads the integer at their front |
| `ParseBuffers.ParseBuffer.ParseArray` | main/cJSON.c:1341-1432 | the element loop builds the specified child list, offset and depth |
| `ParseBuffers.ParseBuffer.ParseObject` | main/cJSON.c:1497-1603 | the member loop builds the specified child list, offset and depth, for every text |
| `ParseBuffers.ParseBuffer.ParseValue` | main/cJSON.c:1212-1264 | the recursive descent over the moving offset returns the specified tree and end |
| `ParseBuffers.ParseWithOpts` | main/cJSON.c:1000-1083 | the whole parser, with and without the check for trailing characters |
| `Grammar.AcceptedIff` | main/cJSON.c:963-1603 | with the demand that the text ends, the parser accepts exactly the texts spelled by the grammar of RFC 8259 for trees nested at most 1000 deep, and returns the tree spelled: with any gaps of characters up to the blank around every token, literals that parse_string takes, integers of at most 63 characters for numbers, a byte order mark allowed |
| `Grammar.RfcTextIsRead` | main/cJSON.c:1000-1603 | every text of section 2 of RFC 8259 with integers for numbers, any run of blank, tab, CR and LF around every structural character, is read as the tree it spells exactly when nested at most 1000 deep |
| `Grammar.ValueIsRead` | main/cJSON.c:1000-1047 | without that demand, parsing stops behind the value, whatever follows that cannot go on with a number |
| `Grammar.ValueSpelled` | main/cJSON.c:1212-1603 | whatever parse_value accepts is spelled by the grammar between start and end, and spells the tree returned |
| `Grammar.QuotedReads` | main/cJSON.c:698-824 | a literal is read alike wherever it stands |
| `Grammar.FractionsRefused` | main/cJSON.c:266-340 | in this model a number with a fraction or an exponent is refused, not cut |
| `RoundTrips.PrintThenParse` | main/cJSON.c:1212-1717 | parsing a printed tree, formatted or not, gives it back (up to stray names of array elements) exactly when it is nested at most 1000 deep |
| `RoundTrips.ParseGivesParsed` | main/cJSON.c:1212-1603 | a parsed tree is complete, not nested too deeply, and has no names in arrays |
| `RoundTrips.ParseThenPrint` | main/cJSON.c:1000-1717 | for every accepted text with integers below 10^15, printing and parsing again gives the same tree |
| `RoundTrips.UnnamedMeaning` | main/cJSON.c:1341-1432 | the names that array elements lose mean nothing |
| `Minifying.MinifyInPlace` | main/cJSON.c:2629-2697 | minifying in place leaves the specified text and a terminator; the write cursor never passes the read cursor |
| `Minifying.CopyLiteral` | main/cJSON.c:2676-2688 | a literal is copied whole, with its escapes |
| `Minifying.LiteralKept` | main/cJSON.c:2676-2688 | a closed literal is kept whole, with its escapes, blanks and slashes |
| `Minifying.MinifyIsTight` | main/cJSON.c:2629-2697 | minifying any text of the grammar with blanks and comments anywhere between its tokens gives exactly the tokens |
| `Minifying.SyntaxMinified` | main/cJSON.c:2629-2697 | the same for a value in front of any text that can be minified |
| `Minifying.CommentEndsIff` | main/cJSON.c:2665-2673 | a block comment is dropped up to its end exactly when it does not begin with a slash, since its end is looked for from its first character on |
| `Minifying.LastLineDropped` | main/cJSON.c:2657-2664 | a line comment may end with the text |
| `Minifying.MinifyPrinted` | main/cJSON.c:2629-2697 | minifying a formatted print gives exactly the unformatted print |
| `Ip2Region.Index.MemorySearch` | ext/ip2region/ip2region.c:90-155 | the search in memory returns what the plain scan returns, for every address |
| `Ip2Region.Index.BinarySearch` | ext/ip2region/ip2region.c:170-232 | the search that reads block by block returns what the plain scan returns |
| `Ip2Region.Index.LoadHeader` | ext/ip2region/ip2region.c:254-272 | reads the header entries up to the first null pointer |
| `Ip2Region.Index.SearchHeader` | ext/ip2region/ip2region.c:274-316 | finds two neighbouring entries whose blocks enclose the address, without leaving the header |
| `Ip2Region.Index.SearchSpan` | ext/ip2region/ip2region.c:321-343 | the search in the span between them returns what the plain scan returns |
| `Ip2Region.Index.BtreeSearch` | ext/ip2region/ip2region.c:247-361 | the header-and-block search returns what the plain scan returns |
| `Ip2Region.ReadsBack` | ext/ip2region/ip2region.c:368-383 | four bytes written least significant first are read as the number they were written for |
| `Ip2Region.Unpacks` | ext/ip2region/ip2region.c:143-146 | position + 2^24 * length gives both parts back |
| `Ip2Region.FileSearched` | ext/ip2region/ip2region.c:90-361 | in a file written from a list of contiguous ranges with positions and lengths, what the searches return is the record of the range that contains the address |
| `Ip2Region.FileSearchedBelow` | ext/ip2region/ip2region.c:90-361 | below the first range they return nothing |
| `Ip2Region.FileHasHeader` | ext/ip2region/ip2region.c:254-272 | a header written from some of the ranges is one that the header-and-block search asks for |
| `Ip2Region.ProbeInside` | ext/ip2region/ip2region.c:121-124 | no probe falls behind the last block, although the upper bound starts one behind it |
| `Ip2Region.Exhausted` | ext/ip2region/ip2region.c:121-141 | when the bounds cross, no range contains the address |
| `Ip2Region.ScanFinds` | ext/ip2region/ip2region.c:121-139 | in contiguous ranges the one that contains the address is the one a scan finds |
| `Primes.IsPrime` | main/cel_math.c:30-46 | decides whether no divisor j from 3 on has j*j below the number |
| `Primes.TestMeans` | main/cel_math.c:30-46 | exactly the primes and the squares of odd primes pass |
| `Primes.SquareIsTaken` | main/cel_math.c:30-46 | 25 passes although it is no prime |
| `Primes.PrimeAbove` | main/cel_math.c:16-22 | there is a prime above every number, so the search ends |
| `Primes.Euclid` | main/cel_math.c:30-46 | a prime that divides a product divides one of the factors |
| `Primes.NextPrime` | main/cel_math.c:16-22 | ends, and returns the least odd number from n on that passes |
| `HashMaps.HashMap.constructor` | main/cel_hashmap.c:75-86 | an empty map whose threshold is the factor times the length, cut |
| `HashMaps.HashMap.Get` | main/cel_hashmap.c:287-299 | returns the value of the key, or the given default |
| `HashMaps.HashMap.Exists` | main/cel_hashmap.c:302-314 | holds exactly for keys of the map |
| `HashMaps.HashMap.Put` | main/cel_hashmap.c:198-227 | updates the finite map and returns the old value; the size stays within the threshold exactly if the key was there, there was room, or the length of the one rebuild makes room |
| `HashMaps.HashMap.Set` | main/cel_hashmap.c:317-332 | replaces the value of a key that is there |
| `HashMaps.HashMap.Remove` | main/cel_hashmap.c:253-284 | removes the key from the finite map |
| `HashMaps.HashMap.Clear` | main/cel_hashmap.c:334-357 | leaves the empty map and the table length |
| `HashMaps.MoveAll` | main/cel_hashmap.c:157-182 | all nodes move to the new table, each to the slot of its hash |
| `HashMaps.HashMap.Rebuild` | main/cel_hashmap.c:143-189 | a rebuild changes no entry; the table gets the least odd length from twice the old one plus one on that passes the prime test |
| `HashMaps.RoomAfterRebuild` | main/cel_hashmap.c:220-224 | the rebuild makes room, now and later, when factor * (length + 1) is at least 1 |
| `HashMaps.TooSmallFactor` | main/cel_hashmap.c:198-227 | a map of two slots with factor 0.1 is overfull after the first put |
| `HashMaps.HashMap.Serve` | main/cel_hashmap.c:198-357 | each call acts on a finite map and answers as the map operation does |
| `HashMaps.HashMap.Run` | main/cel_hashmap.c:198-357 | every run of put, set, remove, increment, decrement, get, exists and clear acts as the same run of operations on a finite map and gives the same answers |
| `HashMaps.HashMap.Alter` | main/cel_hashmap.c:479-508 | changes the value of a key that is there |
| `HashMaps.Increase` | main/cel_hashmap.c:479-492 | adds to the value of a key that is there |
| `Base64.EncodeInto` | main/mbedtls_base64.c:77-139 | writes the encoding and a terminator, or reports the length it needs |
| `Base64.EncodedLength` | main/mbedtls_base64.c:90-98 | the encoding has four characters for every three bytes begun |
| `Base64.EncMapIsAlphabet` | main/mbedtls_base64.c:44-53 | the letters are those of the table in section 4 of RFC 4648, in its order |
| `Base64.DecMapIsAlphabet` | main/mbedtls_base64.c:55-69 | exactly the letters of the table have a value, their place in it, and only the equals sign pads |
| `Base64.EncodeIsRfc` | main/mbedtls_base64.c:103-133 | the encoding is that of section 4 of RFC 4648: each group of bytes as one number of 24 bits, its digits to base 64, padding for what is missing |
| `Base64.FirstPass` | main/mbedtls_base64.c:151-187 | counts significant and padding characters, or finds the text invalid |
| `Base64.CheckedIsProper` | main/mbedtls_base64.c:151-187 | a valid text consists of alphabet characters, then at most two paddings, with only skipped characters between |
| `Base64.ValidIff` | main/mbedtls_base64.c:151-187 | the valid texts are exactly letters and then at most two paddings, with line ends LF and CRLF anywhere between them, and blanks only in front of line ends and at the end |
| `Base64.LengthFormula` | main/mbedtls_base64.c:195-200 | the formula that avoids overflow equals (6n+7)/8 rounded down, less the padding |
| `Base64.NeverTooLong` | main/mbedtls_base64.c:151-223 | for every valid text the second pass writes no more than the length computed before |
| `Base64.EmitEncoded` | main/mbedtls_base64.c:208-223 | the second pass undoes the encoder, whatever the accumulator holds |
| `Base64.RoundTrip` | main/mbedtls_base64.c:77-228 | decoding the encoding of RFC 4648 gives the bytes back, with line ends, blanks in front of them, and blanks at the end put anywhere |
| `Base64.SecondPass` | main/mbedtls_base64.c:208-228 | the loop writes exactly the decoded bytes |
| `Base64.DecodeInto` | main/mbedtls_base64.c:144-228 | status, length and output of the decoder in all cases |
| `Digests.FoldJoin` | main/mbedtls_sha256.c:308-315 | folding the blocks of a joined text is folding one part after the other |
| `Digests.Absorb` | main/mbedtls_sha256.c:296-318 | the buffering leaves the folded whole blocks in the state and the rest in the buffer |
| `Digests.Sha256.Update` | main/mbedtls_sha256.c:273-321 | the message grows by the input; the counters stay right exactly when the input is shorter than 2^32 |
| `Digests.Sha256.UpdateAll` | main/mbedtls_sha256.c:273-321 | any sequence of updates has the effect of one update with the chunks joined |
| `Digests.Sha256.Finish` | main/mbedtls_sha256.c:335-396 | the result is the fold of the message padded as in section 5.1.1 of FIPS 180-2: one bit, zeros, and the eight bytes that read most significant first are its length in bits |
| `Digests.MsbOfWords` | main/mbedtls_sha256.c:366-376 | the two words of the length, most significant byte first, are eight bytes whose value most significant first is that length |
| `Digests.CountUp` | main/mbedtls_sha256.c:290-294 | the low word of the input length is added with carry and the rest is lost |
| `Digests.Md5.Update` | main/cel_md5.c:298-339 | the message grows by the input and the counters hold its length in bits, as long as buffered and new bytes together are countable by an int |
| `Digests.CopyFitsIff` | main/cel_md5.c:317-320 | with the wrapping int sum, the copy into the buffer stays inside it exactly on those inputs |
| `Digests.Md5.Final` | main/cel_md5.c:341-365 | the result is the fold of the message padded as in sections 3.1 and 3.2 of RFC 1321, with the eight bytes that read least significant first are its length in bits |
| `Digests.LsbOfWords` | main/cel_md5.c:341-365 | and least significant byte first likewise |
| `Digests.BitsUp` | main/cel_md5.c:303-314 | adding to the two counters is adding the bits modulo 2^64 |
| `SentinelLists.Link.constructor` | main/cel_link.c:60-75 | an empty list between two sentinels |
| `SentinelLists.Link.GetNode` | main/cel_link.c:182-203 | the node at a position, the same from either end |
| `SentinelLists.InsertBefore` | main/cel_link.c:152-159 | a new node in front of another keeps forward and backward walks mirrored |
| `SentinelLists.Link.AddLast` | main/cel_link.c:126-144 | appends an element |
| `SentinelLists.Link.AddFirst` | main/cel_link.c:133-137 | puts an element in front |
| `SentinelLists.Link.Insert` | main/cel_link.c:167-174 | inserts in front of an existing position and ignores others |
| `SentinelLists.Link.Remove` | main/cel_link.c:211-224 | takes the element at a position out and returns it |
| `SentinelLists.Link.RemoveFirst` | main/cel_link.c:233-247 | takes the first element out |
| `SentinelLists.Link.RemoveLast` | main/cel_link.c:250-264 | takes the last element out |
| `SentinelLists.Link.RemoveObj` | main/cel_link.c:273-289 | takes the first matching element out |
| `SentinelLists.FindsFirst` | main/cel_link.c:273-289 | the element taken is the first that is the value itself or compares equal to it, the value being the first argument |
| `SentinelLists.Link.Get` | main/cel_link.c:292-297 | returns the element at a position |
| `SentinelLists.Link.Set` | main/cel_link.c:307-319 | exchanges the element at a position |
| `SentinelLists.Link.SetObj` | main/cel_link.c:322-337 | exchanges the first matching element |
| `SentinelLists.Link.Serve` | main/cel_link.c:126-337 | each call acts on a sequence and answers as the sequence operation does |
| `SentinelLists.Link.Run` | main/cel_link.c:126-337 | every run of list calls acts as the same run of sequence operations and gives the same answers |

## Left out

- ParseBuffers.ParseBuffer.ParseNumber: numbers are integers, and a number with a point or an exponent is refused, which the code reads; rounding and the saturated integer copy of a number are not modelled, and a read -0 is 0, which the code keeps apart.
- ParseBuffers.ParseBuffer.ParseValue: the same holds for the numbers inside values.
- Grammar.AcceptedIff: the same; literals are characterised by what parse_string takes, which `LiteralMeaning` and `LiteralRefused` tell for literals whose \u escapes have four hexadecimal digits.
- Minifying.MinifyIsTight: numbers are integers here too, though the code copies any characters.
- ParseBuffers.ParseWithOpts: the same; where parsing failed, and what a failed parse leaves in the buffer, is not modelled either.
- RoundTrips.ParseThenPrint: covers texts whose numbers are integers below 10^15 in magnitude.
- PrintBuffers.PrintBuffer.PrintNumber: covers integers below 10^15 in magnitude, where no exponent appears, and no negative zero, which the code prints as -0.
- Allocation never fails; allocator hooks, locales, references, constant names, raw items and null names are not modelled. Indices and sizes of trees are unbounded integers.
- Nested documents under patches are values with a record of stale links inside a mutable root: relinking itself is proved for one child list (`SiblingLists`) and for deep copies (`Duplicating`), not for whole trees under patches.
- Generating.PatchesEncodePlan: what fresh memory holds is an arbitrary function of the name still to be written, the same for all names of a run; a terminator in it ends the escaped name.
- Pointers.FindPointerFromObjectTo: the node looked for is given by its position in the tree, which stands for its address.
- Pointers.PointerFindsNode: node identity is, likewise, the position in the tree.
- Documents.PatchArray.CreatePatches: leaves out that generating sorts the members of its two inputs in place; the patches do not depend on it, and `PatchRoundTrip` covers trees with the links it leaves.
- Documents.Document.Apply: a patch that breaks, and a move whose source is not a string, which the code does not survive, have no status; nothing is said of the document then. The value of a test is not shown as sorted afterwards.
- LinkedPatching.PatchRoundTrip: asks for distinct names without tilde and slash that strcmp and the folding comparison put in the same order; `EscapingWorksIffNotNeeded` and `CaseSensitiveSortIff` show why.
- LinkedPatching.ApplyDoes: pointers consist of tokens without tilde and slash, and the comparison in use tells the names apart; `EscapedLookup`, `TestByAnyNames` and `LastTokenDecodesIff` cover all names for the parts. A case-sensitive move is right when its source is met right (`Fair`); the converse is false, as `MoveMayCoincide` shows.
- Minifying.MinifyInPlace: reports failure for an open literal or block comment, where the cursor runs off the text and the code has no defined result.
- Ip2Region.Index.BtreeSearch: asks for a well-formed file: contiguous ranges up to the highest address, records inside the file, and header entries that point at index blocks, the first and the last included.
- HashMaps.HashMap.Put: the hash function is arbitrary; the load factor is a positive real without rounding; release callbacks are left out. The integer map is the same code with another value type; its put, set and remove return whether, not what.
- Primes.NextPrime: integers are unbounded, so overflow near the largest int does not appear.
- Digests.Sha256.Update: the block function and the state are arbitrary; its rounds, the byte order of the printed digest and SHA-224 are not modelled.
- Digests.Md5.Update: the same holds for MD5. Inputs with which buffered and new bytes together exceed 2^31 - 1 are excluded: an int sum overflows there and the copy runs past the buffer, for example with one buffered byte and 2^31 - 1 new ones (`CopyFitsIff`).
- SentinelLists.Link.Remove: freeing of nodes and release callbacks are left out.
- `main/mbedtls_sha1.c` and `main/mbedtls_sha512.c` repeat the buffering of SHA-256.
- `main/cel_array.c`, `main/cel_string.c`, `main/cel_stdio.c`, the bloom filter and the hash functions would only add easy members.
- Collectors, updater, booter, network clients, shell pipes, Lua bindings and database glue are input and output around other libraries.
