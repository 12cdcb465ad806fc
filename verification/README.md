# Verified models of exiCPP's data structures, XML code and patcher

This project models ten components of exiCPP in Dafny and proves what each of them is for. Code that
changes state in place is modelled by methods on arrays and classes; each of them is proved against a
function or predicate that says what it computes, and the laws are lemmas about those.

* **DenseMap** (`Probing`, `Buckets`, `DenseMap`). The probe sequence of triangular numbers visits every
  bucket of a power-of-two table, every reachable table keeps an empty bucket, so searches end; and every
  run of operations answers like a plain map, up to the first erasure of a reserved key that is met. A
  table reserved for n keys takes n keys in its first bucket array.
* **rapidxml text** (`XmlText`, `XmlReference`, `XmlExpander`). Escaping and expanding undo each other,
  numeric references stand for the code they spell, and the in-place expander computes the pure expansion
  without its write cursor ever overtaking its read cursor.
* **rapidxml trees** (`XmlParser`, `XmlPrinter`, `XmlRoundTrip`, `XmlInPlace`, `XmlReparse`). Parsing a
  printed document gives back the nodes the flags keep, for every choice of flags and whatever white space
  stands between markup and in tags, and the whole document exactly when it has no attributes and the flags
  keep every kind of node in it. The destructive parser
  refines the pure one; when it ends all its slices still read right and, with terminators on, end in NUL.
* **rapidxml child lists** (`DomList`). Seven list operations act on the sequence of children and leave
  every other list of the heap in order.
* **compare_xml** (`DomTree`, `CompareXml`). Preorder sequences with depths determine a forest, and the
  lockstep walk decides equality with the pruned old document exactly when no kept node lies below an
  ignored one. Which leaves can be put anywhere without changing the answer is shown by their kinds.
* **EXI writer and XML builder** (`TreeWriter`, `TreeBuilder`). The iterative traversal emits the
  recursive start/end serialisation with the sorted attributes of every node, and building from it returns
  the document exactly when a stated condition on it holds.
* **Detours** (`Jumps`, `PatchTable`, `Standing`, `PatchRun`, `Detours`, `DetourSites`). Every jump layout
  arrives at its detour. After a successful run all of them do, with store regions that contain the
  functions, import slots side by side and slots shared, when the code at each entry has no INT3 neighbours.
  Undoing leads back to the start outside the address-store slots, even when patched regions overlap, and
  it is shown for exactly which tables a run that does not succeed can leave bytes behind.
* **Hash streaming** (`Hashing`). Contiguous, buffered and variadic hashing agree, for every mixer.
* **BitVector** (`Words`, `BitVector`). Word-mask code acts as the same operation on a sequence of bits and
  keeps the representation canonical.
* **VMemcpy and VMemset** (`BlockMemory`). Overlapping and realigned blocks copy and fill exactly the range.
* **IntrusiveRefCntPtr** (`RefCount`, `RefCountOps`). Under every interleaving the counter counts the
  holders, nothing is touched after its deletion, each object is deleted exactly once, and every operation
  leaves its pointers with the objects it promises.

Points where the code does not do what it or its documentation suggests. Each is proved, most with the
exact condition:

* `shrink_and_clear` passes a bucket count to `init`, which takes an entry count, so the table gets twice
  the computed size; its early exit for an unchanged size is never taken (`ClearShrinksExactly`,
  `ShrunkIsSmaller`).
* `erase` of a reserved key that the search meets moves the counters although no pair goes: the table
  stays valid exactly when the key was not reserved or not met, and erasing the empty key from an empty
  table sets the entry count to 0xFFFFFFFF (`DenseMap.Erase`, `EraseEmptyKey`).
* A terminator behind the target of a processing instruction overwrites the first character of its value:
  the value reads as written exactly when white space separates the two, terminators are off, or it is
  empty (`PiValueRead`); `<?a/b?>` loses its slash (`BrokenPi`).
* Decimal references take hexadecimal digits: `&#1F;` stands for code 25 (`LettersInDecimal`).
* Of several data nodes below one element only the last one's value arrives at the other end
  (`LastDataWins`).
* Printed text that holds NUL does not come back (`EscapeRoundTrip`); numeric references to surrogates
  produce bytes that are not UTF-8 (`Utf8RoundTrip`).
* `append_attribute` returns before linking any attribute without a parent, so parsed elements and
  declarations have no attributes, and a printed document comes back whole exactly when it has none
  (`ComesBackWhole`). The builder loses them in the same way (`SurvivesExactly`).
* A run that patches a fresh table and does not succeed leaves every byte outside the slots as it was,
  whatever is refused, exactly when no live site with a target is followed by another live site before the
  first unnamed entry (`HandlePatching`, `WorstRun`, `ExposedFirst`). Otherwise, when the request after the
  first such site is refused, the site stays patched. With all entries named that is reported as partial,
  so a run reported as failed restores everything. With an unnamed one it is reported as failed, since the
  rollback stops at the first unnamed entry from the end and undoes nothing. The shipped table names each
  of the 56 entries it hands over.
* The last mode is Unpatched after a failure and after a refused rollback, so asking again to undo reports
  success and does nothing; an undo call does its work exactly when patching succeeded
  (`EnableThenDisable`, `RefusedRollback`).
* The first save moves the address of a site into the padding it uses, and undoing does not move it back.
  Enabled again, the function leads to its detour exactly when the address did not move, that is without
  five padding bytes for a near detour or eight for a far one. A moved site gets its second jump in front
  of the function, which stays its original self, or with eight to thirteen padding bytes and a far detour
  a jump whose address overwrites the first six bytes of the function (`SecondEnable`).
* A site that got a slot keeps the address in it: switched to another far target, the function still leads
  to the first one (`Retarget`).
* An entry of INT3 bytes can be taken for room for its own slot, and then does not lead to the detour
  (`EntryOfInt3`). From 28 bytes on two functions without INT3 neighbours never break each other; at
  every smaller distance there are two that do (`TwoSites`, `TooClose`).
* `wordShl` copies onto a range that overlaps its source. A copy from front to back would move the words
  right exactly when the shift is by no word or by at least half of them (`FrontToBackExactly`).
* The buffered hash counts a first buffer that its items do not fill as 64 bytes; for longer streams it
  agrees with the others exactly when the item size divides 64 (`HashBuffered`).

Conventions: words are 64 bits wide; characters stand for bytes; a pointer into a buffer is an index; a
path of child numbers stands for a tree cursor; page protection is an arbitrary sequence of answers.

## Model

| member | source | states |
|---|---|---|
| Probing.ProbeInjective | include/core/Common/DenseMap.hpp:616-637 | offsets i(i+1)/2 modulo a power of two differ for different probes within one round of the table |
| Probing.ProbeHitsEvery | include/core/Common/DenseMap.hpp:616-637 | the probe path of any hash reaches any bucket within as many probes as there are buckets |
| Probing.ProbeStep | include/core/Common/DenseMap.hpp:635 | adding the growing step and masking is the next triangular probe |
| Buckets.CountTotal | include/core/Common/DenseMap.hpp:578-614 | live, empty and tombstone buckets add up to the bucket count |
| Buckets.ModelSize | include/core/Common/DenseMap.hpp:116 | the map a table stands for has as many keys as the table has live buckets |
| Buckets.LiveBeforeEmpty | include/core/Common/DenseMap.hpp:616-637 | a stored key is met on its probe path before any empty bucket |
| Buckets.StopMeansAbsent | include/core/Common/DenseMap.hpp:616-637 | a search that stops at an empty bucket proves the key absent |
| Buckets.StopMeansUnmet | include/core/Common/DenseMap.hpp:616-637 | the same for any key other than the empty one, markers included |
| Buckets.EmptyOnPath | include/core/Common/DenseMap.hpp:616-637 | one empty bucket anywhere ends every search |
| Buckets.MetOnce | include/core/Common/DenseMap.hpp:616-637 | a search ends in at most one bucket |
| Buckets.Fill | include/core/Common/DenseMap.hpp:578-614 | writing a new key into its first free bucket, tombstone or empty, adds exactly that pair and keeps every other key reachable |
| Buckets.Bury | include/core/Common/DenseMap.hpp:338-348 | a tombstone in place of a live bucket removes exactly its key and breaks no probe path |
| Buckets.Assign | include/core/Common/DenseMap.hpp:323-329 | overwriting a value changes exactly that pair |
| DenseMaps.MinBucketsToReserve | include/core/Common/DenseMap.hpp:414-421 | a power of two above 4/3 of the entries, zero for none |
| DenseMaps.GrownSize | include/core/Common/DenseMap.hpp:830-847 | the least power of two that is at least the request and 64; 64 for grow(0) |
| DenseMaps.DenseMap.constructor | include/core/Common/DenseMap.hpp:759 | a valid empty table with the reserved number of buckets |
| DenseMaps.DenseMap.Init | include/core/Common/DenseMap.hpp:820-828 | a fresh empty table sized for the entry count |
| DenseMaps.DenseMap.InitEmpty | include/core/Common/DenseMap.hpp:401-412 | all buckets empty, both counters zero, the table valid |
| DenseMaps.DenseMap.DoFind | include/core/Common/DenseMap.hpp:616-637 | terminates on every key, reserved ones included, and finds a key exactly when its probe path meets it before an empty bucket; for other keys exactly when the map has it, with its value |
| DenseMaps.DenseMap.LookupBucketFor | include/core/Common/DenseMap.hpp:649-696 | finds the key's bucket exactly when the map has it, and otherwise the first bucket on its path that is not live |
| DenseMaps.DenseMap.MoveFromOldBuckets | include/core/Common/DenseMap.hpp:423-446 | keeps exactly the live pairs, drops every tombstone, counts exactly |
| DenseMaps.DenseMap.Grow | include/core/Common/DenseMap.hpp:830-847 | same map, no tombstones, the computed bucket count |
| DenseMaps.DenseMap.MakeRoom | include/core/Common/DenseMap.hpp:578-601 | afterwards the load is below 3/4 with the new entry counted and an empty bucket remains; nothing moves when neither growth test fires |
| DenseMaps.DenseMap.InsertIntoBucketImpl | include/core/Common/DenseMap.hpp:578-614 | takes the new key's first free bucket and adjusts both counters, the tombstone one only when a tombstone is reused |
| DenseMaps.DenseMap.InsertIntoBucket | include/core/Common/DenseMap.hpp:557-565 | the map gains exactly the new pair |
| DenseMaps.DenseMap.TryEmplace | include/core/Common/DenseMap.hpp:243-286 | inserts exactly when the key is new and returns the key's bucket |
| DenseMaps.DenseMap.InsertOrAssign | include/core/Common/DenseMap.hpp:323-336 | the key has the value afterwards; reports whether it was new |
| DenseMaps.DenseMap.Index | include/core/Common/DenseMap.hpp:357-372 | the bucket of the key, which holds its value; a new key is inserted with the default value |
| DenseMaps.DenseMap.Store | include/core/Common/DenseMap.hpp:323-329 | assigning through a reference to a value changes exactly that pair of the map |
| DenseMaps.DenseMap.Erase | include/core/Common/DenseMap.hpp:338-348 | succeeds exactly when the search meets the key; removes exactly that key; the table stays valid exactly when no reserved key was met |
| DenseMaps.DenseMap.Reserve | include/core/Common/DenseMap.hpp:120-126 | same map, at least the buckets for the entries |
| DenseMaps.DenseMap.Clear | include/core/Common/DenseMap.hpp:127-161 | an empty valid table and its exact bucket count |
| DenseMaps.DenseMap.ShrinkAndClear | include/core/Common/DenseMap.hpp:849-866 | an empty table; the size is the reservation for the computed bucket count |
| DenseMaps.DenseMap.Contains | include/core/Common/DenseMap.hpp:164-167 | true exactly when the search meets the key, reserved keys included; for other keys exactly for those of the map |
| DenseMaps.DenseMap.Lookup | include/core/Common/DenseMap.hpp:211-216 | the value in the bucket where the search meets the key, reserved keys included, or the default value; for other keys the value of the map |
| DenseMaps.DenseMap.Size | include/core/Common/DenseMap.hpp:116 | the number of keys of the map |
| DenseMaps.DenseMap.Equals | include/core/Common/DenseMap.hpp:713-731 | true exactly when both tables stand for the same map |
| DenseMaps.ReserveNeverGrows | include/core/Common/DenseMap.hpp:414-421 | a reservation for n passes both growth tests at each of n insertions |
| DenseMaps.ReserveDoubles | include/core/Common/DenseMap.hpp:849-866 | reserving a power of two of at least 64 entries takes exactly twice as many buckets |
| DenseMaps.ShrunkIsSmaller | include/core/Common/DenseMap.hpp:849-866 | the computed size is at most half the table whenever clear shrinks, so the early exit is dead |
| DenseMaps.ClearShrinksExactly | include/core/Common/DenseMap.hpp:127-161 | clear ends with twice the computed size; the table gets smaller exactly when four times that size fits in it |
| DenseMaps.Perform | include/core/Common/DenseMap.hpp:73-373 | one operation answers as a plain map does, questions about reserved keys aside; it spoils the table exactly when it erases a reserved key that is met |
| DenseMaps.Run | include/core/Common/DenseMap.hpp:73-373 | every run of operations from a new table answers as a plain map does, questions about reserved keys aside, and ends early exactly when it erases a reserved key that is met, with a spoilt table |
| DenseMaps.FillReserved | include/core/Common/DenseMap.hpp:820-828 | n distinct insertions into a table reserved for n never leave its first bucket array |
| DenseMaps.EraseEmptyKey | include/core/Common/DenseMap.hpp:338-348 | concrete run in which erasing the empty key succeeds and wraps the entry counter |
| XmlText.Utf8RoundTrip | vendored/rapidxml/rapidxml.hpp:1397-1439 | the bytes inserted for a code point below 0x110000 decode back to it as UTF-8 of RFC 3629 exactly when it is no surrogate |
| XmlText.Utf8Only | vendored/rapidxml/rapidxml.hpp:1397-1439 | whatever decodes is such bytes, of a code below 0x110000 that is no surrogate |
| XmlText.TailByte | vendored/rapidxml/rapidxml.hpp:1412-1432 | masking with 0x80 and 0xBF leaves the low six bits of the code under the mark of a continuation byte |
| XmlText.LeadByte | vendored/rapidxml/rapidxml.hpp:1412-1432 | the bits of the mark and of the code do not meet in a lead byte |
| XmlText.NumericFits | vendored/rapidxml/rapidxml.hpp:1523-1556 | the bytes of a numeric reference never outnumber the characters of the reference |
| XmlReferences.ExpandReference | vendored/rapidxml/rapidxml.hpp:1523-1556 | the reference of a code, written by division in decimal or hexadecimal, after any zeros and in either case, expands to the bytes of that code, or is refused from 0x110000 on |
| XmlReferences.NumericRoundTrip | vendored/rapidxml/rapidxml.hpp:1523-1556 | its expansion decodes to that code as UTF-8, surrogates aside, and stops behind the semicolon |
| XmlReferences.LettersInDecimal | vendored/rapidxml/rapidxml.hpp:1536-1551 | concrete decimal reference with a hexadecimal digit in it |
| XmlText.EscapeRoundTrip | vendored/rapidxml/rapidxml_print.hpp:46-107 | expanding escaped text returns the text and stops right behind it exactly when the text holds no NUL |
| XmlText.ExpandEscaped | vendored/rapidxml/rapidxml.hpp:1455-1587 | expansion undoes escaping, from any accumulated output on |
| XmlText.QuoteNotInside | vendored/rapidxml/rapidxml_print.hpp:141-165 | the quote chosen for an attribute value, and `<` for data, never occurs in the escaped text |
| XmlExpander.ReadNumber | vendored/rapidxml/rapidxml.hpp:1523-1553 | the value of the digits and the position behind them |
| XmlExpander.ReadReference | vendored/rapidxml/rapidxml.hpp:1474-1562 | recognises exactly the reference at the cursor and never reads past the NUL |
| XmlExpander.InsertCodedCharacter | vendored/rapidxml/rapidxml.hpp:1397-1439 | the masked bytes are the UTF-8 of the code, and nothing else is written; or an invalid code is reported |
| XmlExpander.TranslateOne | vendored/rapidxml/rapidxml.hpp:1470-1580 | one step of the expansion, written at or before the cursor it was read from |
| XmlExpander.SkipAndExpand | vendored/rapidxml/rapidxml.hpp:1455-1587 | on any terminated buffer: the pure expansion of the original text lies behind the start, the write cursor is never ahead, unread text is untouched, errors agree |
| XmlRoundTrip.PiValueRead | vendored/rapidxml/rapidxml.hpp:1721-1769 | for every text of a target, white space or none, a value and the end mark, the parser yields that value exactly when there is white space, terminators are off or it is empty |
| XmlRoundTrip.BrokenPi | vendored/rapidxml/rapidxml.hpp:1721-1769 | concrete text whose value does not come back |
| XmlPrinter.CopyAndExpandChars | vendored/rapidxml/rapidxml_print.hpp:46-107 | appends the escaped text |
| XmlPrinter.WriteAttributes | vendored/rapidxml/rapidxml_print.hpp:141-165 | appends the printed attributes with their chosen quotes |
| XmlPrinter.WriteElement | vendored/rapidxml/rapidxml_print.hpp:213-257 | appends the printed element; the one-text-child shortcut prints the same text |
| XmlPrinter.WriteChildren | vendored/rapidxml/rapidxml_print.hpp:133-137 | appends the printed children |
| XmlPrinter.WriteNode | vendored/rapidxml/rapidxml_print.hpp:336-376 | appends the printed node of every kind |
| XmlRoundTrip.ParseSpacedAttributes | vendored/rapidxml/rapidxml.hpp:2033-2092 | attributes with white space around them and their equals signs parse to the same names and values |
| XmlRoundTrip.PrintedComment | vendored/rapidxml/rapidxml.hpp:1633-1666 | a printed comment parses to itself, or to nothing when comments are off |
| XmlRoundTrip.PrintedCData | vendored/rapidxml/rapidxml.hpp:1829-1859 | a printed CDATA section parses to itself, or to nothing when data nodes are off |
| XmlRoundTrip.PrintedDoctype | vendored/rapidxml/rapidxml.hpp:1669-1718 | a printed DOCTYPE with nested brackets ends where it was printed to end |
| XmlRoundTrip.PrintedPi | vendored/rapidxml/rapidxml.hpp:1721-1769 | a printed processing instruction parses to its target and value |
| XmlRoundTrip.SpacedDeclaration | vendored/rapidxml/rapidxml.hpp:1602-1630 | a declaration with any white space parses to a declaration without its attributes |
| XmlRoundTrip.OpenedElement | vendored/rapidxml/rapidxml.hpp:1863-1897 | an element with any white space in its tags and between its children parses to its name and visible children; with another name in its closing tag exactly when closing tags are not validated |
| XmlRoundTrip.SpacedContents | vendored/rapidxml/rapidxml.hpp:1973-2029 | children with white space between them and their closing tag parse to the visible children |
| XmlRoundTrip.SpacedTop | vendored/rapidxml/rapidxml.hpp:1303-1317 | the document loop returns the visible nodes, white space aside |
| XmlRoundTrip.ParseSpaced | vendored/rapidxml/rapidxml.hpp:1293-1317 | for every flags, every normal document and any blanks, tabs and line ends between markup and in tags, with a byte order mark or none, parsing returns exactly the nodes the flags keep |
| XmlRoundTrip.WrongClosing | vendored/rapidxml/rapidxml.hpp:1991-2008 | another valid name in the closing tag of a document element is refused exactly when closing tags are validated |
| XmlRoundTrip.ParsePrinted | vendored/rapidxml/rapidxml_print.hpp:168-376 | for every flags and every normal document, parsing the printed text returns exactly the nodes the flags keep, at every level |
| XmlRoundTrip.ComesBackWhole | vendored/rapidxml/rapidxml_print.hpp:168-376 | a printed normal document comes back whole exactly when it has no attributes at any level and the flags keep every kind of node in it |
| XmlInPlace.StoresFrame | vendored/rapidxml/rapidxml.hpp:1817-1826 | a subtree's strings and their terminators are not disturbed by terminators and expansions behind it |
| XmlInPlace.ReadComment | vendored/rapidxml/rapidxml.hpp:1633-1666 | refines the pure comment parser, terminators included |
| XmlInPlace.ReadCData | vendored/rapidxml/rapidxml.hpp:1829-1859 | refines the pure CDATA parser |
| XmlInPlace.ReadDoctype | vendored/rapidxml/rapidxml.hpp:1669-1718 | refines the pure DOCTYPE parser |
| XmlInPlace.ReadPi | vendored/rapidxml/rapidxml.hpp:1721-1769 | refines the pure parser, including the overwritten first character |
| XmlInPlace.ReadAttribute | vendored/rapidxml/rapidxml.hpp:2033-2092 | name and value slices read as the pure parser's name and expanded value and end in their terminators |
| XmlInPlace.ReadDeclaration | vendored/rapidxml/rapidxml.hpp:1602-1630 | refines the pure declaration parser |
| XmlInPlace.ReadNode | vendored/rapidxml/rapidxml.hpp:1901-1970 | refines the dispatch on the first characters of a node |
| XmlInPlace.ReadData | vendored/rapidxml/rapidxml.hpp:1776-1826 | the data slice is the expansion, ends in a terminator, and the character that terminator overwrote is returned |
| XmlInPlace.ReadElement | vendored/rapidxml/rapidxml.hpp:1863-1897 | refines the pure element parser; name and children still read right at the end of the element |
| XmlInPlace.ReadContents | vendored/rapidxml/rapidxml.hpp:1973-2029 | refines the pure contents parser while overwriting the buffer it reads |
| XmlInPlace.Parse | vendored/rapidxml/rapidxml.hpp:1293-1317 | fails with the pure parser's error, or builds its tree; when parsing ends every slice reads right and, with terminators on, ends in NUL |
| XmlReparse.Reparse | vendored/rapidxml/rapidxml_print.hpp:390-400 | printing into a buffer and parsing it in place gives the visible nodes |
| XmlReparse.ParseSpacedInPlace | vendored/rapidxml/rapidxml.hpp:1293-1317 | the destructive parser gives the visible nodes of such a spaced document |
| DomList.XMLNode.Undisturbed | vendored/rapidxml/rapidxml.hpp:1245-1255 | relinking children of one node, or nodes without a parent, leaves every other child list in order |
| DomList.XMLNode.SplicedIn | vendored/rapidxml/rapidxml.hpp:1046-1060 | the pointer writes around a new child at any place keep all links consistent |
| DomList.XMLNode.SplicedOut | vendored/rapidxml/rapidxml.hpp:1096-1108 | so do the writes around a child that leaves the middle |
| DomList.XMLNode.PrependNode | vendored/rapidxml/rapidxml.hpp:1011-1023 | the child comes first; all links consistent, all other lists kept |
| DomList.XMLNode.AppendNode | vendored/rapidxml/rapidxml.hpp:1028-1040 | the child comes last; all links consistent, all other lists kept |
| DomList.XMLNode.InsertNode | vendored/rapidxml/rapidxml.hpp:1046-1060 | the child comes before the given one, or last |
| DomList.XMLNode.RemoveFirstNode | vendored/rapidxml/rapidxml.hpp:1065-1076 | the first child leaves and has no parent |
| DomList.XMLNode.RemoveLastNode | vendored/rapidxml/rapidxml.hpp:1081-1092 | the last child leaves and has no parent |
| DomList.XMLNode.RemoveNode | vendored/rapidxml/rapidxml.hpp:1096-1108 | exactly the given child leaves |
| DomList.XMLNode.RemoveAllNodes | vendored/rapidxml/rapidxml.hpp:1111-1115 | no child is left and none has a parent, although their sibling pointers stay |
| CompareXml.XMLNodeIt.Next | old/utils/CompareXml.cpp:70-103 | moves to the next node in preorder with its depth, or back to the document when there is none |
| CompareXml.SkipIgnoredData | old/utils/CompareXml.cpp:187-217 | moves to the next node that is not ignored |
| CompareXml.ExtractAll | old/utils/CompareXml.cpp:248-267 | extracting every matching pair leaves the unmatched ones and reports any difference |
| CompareXml.CompareAttributes | old/utils/CompareXml.cpp:219-277 | true exactly when the attribute maps are equal |
| CompareXml.CountDifferences | old/utils/CompareXml.cpp:306-329 | zero exactly when kind, name, value and attributes agree |
| CompareXml.Compare | old/utils/CompareXml.cpp:280-349 | true exactly when the filtered old sequence matches the new one entry by entry |
| CompareXml.FlatDecides | old/utils/CompareXml.cpp:70-103 | two forests are equal exactly when their preorder sequences with depths match |
| CompareXml.FilterAgainstPrune | old/utils/CompareXml.cpp:187-217 | the filtered sequence is that of the pruned forest exactly when no kept node lies below an ignored one, and longer otherwise |
| CompareXml.CompareDecides | old/utils/CompareXml.cpp:280-349 | the comparison decides equality with the pruned old document, for every new one, exactly when no kept node lies below an ignored one |
| CompareXml.CompareXmlDocuments | old/utils/CompareXml.cpp:353-371 | the result from the start of both documents |
| CompareXml.LeafIgnored | old/utils/CompareXml.cpp:187-217 | a comment, processing instruction or DOCTYPE put anywhere into the old document changes no answer unless preserved, data that is one newline never does; any other leaf makes every equal document unequal |
| CompareXml.CompareWithLeaf | old/utils/CompareXml.cpp:353-371 | the same for the two answers of the whole comparison |
| CompareXml.SomeSame | old/utils/CompareXml.cpp:280-349 | some new document is equal whenever no kept node lies below an ignored one |
| TreeWriter.NameRoundTrip | old/src/Writer.cpp:525-551 | a name survives splitting at its first colon and joining exactly when it does not start with a colon |
| TreeWriter.WriterImpl.NextNode | old/src/Writer.cpp:589-637 | emits the ends and the start on the way to the next node in preorder, depth equal to the path length; false when the traversal is over |
| TreeWriter.WriterImpl.Parse | old/src/Writer.cpp:350-372 | terminates with exactly the recursive serialisation of the document, sorted attributes included |
| TreeWriter.OrderedIs | old/src/Writer.cpp:444-485 | the attributes written are, each as often, those whose name is neither xmlns nor starts with xmlns: , in non-decreasing order of names by their characters, those of one name in their order |
| TreeWriter.ContentIs | old/src/Writer.cpp:357-365 | in every stream those attributes and then the data stand right behind the start of a node, as name and value events |
| TreeWriter.WriteElement | old/src/Writer.cpp:350-372 | the events of an element without children: start, those attributes, end |
| TreeWriter.SplitAtColon | old/src/Writer.cpp:525-571 | a name is split at its first colon, and not at all without one |
| TreeBuilder.XMLBuilder.StartElement | old/utils/ExiToXml.cpp:72-80 | the new node is the last child of the one under the cursor, which moves to it; putting the old node back gives the old document |
| TreeBuilder.XMLBuilder.EndElement | old/utils/ExiToXml.cpp:82-86 | the cursor moves to the parent, and to none from the document |
| TreeBuilder.XMLBuilder.StringData | old/utils/ExiToXml.cpp:113-133 | the waiting attribute takes the value and the document stays; otherwise the value of the node under the cursor becomes it and nothing else changes |
| TreeBuilder.AttributesLost | old/utils/ExiToXml.cpp:106-133 | the events of any attributes leave document and cursor as they were |
| TreeBuilder.BuildFromStream | old/utils/ExiToXml.cpp:72-133 | building from the writer's stream ends with the cursor at the document, which has absorbed the written trees |
| TreeBuilder.WriteAndBuild | old/utils/ExiToXml.cpp:72-133 | the writer's events drive the builder to that document |
| TreeBuilder.SurvivesExactly | old/utils/ExiToXml.cpp:72-133 | the document comes back exactly when it consists of elements without values or attributes whose names do not start with a colon |
| TreeBuilder.LastDataWins | old/utils/ExiToXml.cpp:113-133 | a node takes the value of the last of the data written into it, and gets all other nodes as children in order |
| Jumps.LoadStored | redirect/lib/DetoursImpl.cpp:163-243 | a number stored little-endian loads as itself modulo the width |
| Jumps.SignedStored | redirect/lib/DetoursImpl.cpp:163-243 | a displacement survives its 32-bit store exactly when it fits |
| Jumps.SlotReached | redirect/lib/DetoursImpl.cpp:211-219 | the jump through memory reads the slot exactly when the displacement fits 32 bits |
| Jumps.ArrivesLands | redirect/lib/DetoursImpl.cpp:163-247 | executing any of the six layouts transfers control to the target, in one jump or two |
| Standing.FirmKept | redirect/lib/DetoursImpl.cpp:163-247 | no run of INT3 that the slot search takes meets the bytes of a firm jump, layout by layout, so claiming slots around it leaves it in place |
| Jumps.EntryNearWritten | redirect/lib/DetoursImpl.cpp:166-172 | the stores form E9 at the entry and write only its 5 bytes |
| Jumps.PaddedNearWritten | redirect/lib/DetoursImpl.cpp:173-182 | the stores form EB to E9 in the padding and write only its 7 bytes |
| Jumps.EntryFarWritten | redirect/lib/DetoursImpl.cpp:201-210 | the stores form FF 25 with the address behind it and write only its 14 bytes |
| Jumps.SlotJumpWritten | redirect/lib/DetoursImpl.cpp:211-219 | the stores form FF 25 through a slot when the slot is in reach and clear of the entry, and write only its 6 bytes |
| Jumps.BehindFarWritten | redirect/lib/DetoursImpl.cpp:220-229 | the stores form FF 25 with the address in the padding and write only its 14 bytes |
| Jumps.PaddedFarWritten | redirect/lib/DetoursImpl.cpp:230-243 | the stores form EB to FF 25 in the padding and write only its 16 bytes |
| PatchTables.TopByte | redirect/lib/DetoursImpl.cpp:147-161 | a slot that holds an address below 2^56 is never taken for free |
| Standing.StandsKept | redirect/lib/DetoursImpl.cpp:286-321 | patching one site leaves every site apart from it standing, wherever their store regions lie |
| Standing.ClaimClear | redirect/lib/DetoursImpl.cpp:147-161 | a slot taken from a run of INT3 does not meet code without INT3 neighbours |
| Standing.ClaimClears | redirect/lib/DetoursImpl.cpp:147-161 | a slot claimed before a site is patched keeps out of what patching that site overwrites |
| Standing.ReadyKept | redirect/lib/DetoursImpl.cpp:286-321 | a site not patched yet stays free of INT3 neighbours, an import slot other than all INT3, whatever is patched apart from it |
| Standing.SlotKept | redirect/lib/DetoursImpl.cpp:163-247 | nothing patched later writes to a slot: its top byte is no padding and it is no run of INT3 |
| Standing.RespectsMore | redirect/lib/DetoursImpl.cpp:323-350 | one more site of an entry respects all sites apart from the entry |
| Standing.TableStandsMore | redirect/lib/DetoursImpl.cpp:354-387 | one more entry: the entries done stand, the others are ready, no slot is in their way |
| Standing.StandingDelivers | redirect/lib/DetoursImpl.cpp:389-406 | a standing function lands on its detour, a standing import slot loads it |
| PatchTables.RestoredSaved | redirect/lib/DetoursImpl.cpp:276-281 | writing saved bytes back over the region they were saved from restores memory |
| PatchTables.SiteUndone | redirect/lib/DetoursImpl.cpp:323-350 | one more patched site is undone first, and undoing the rest still leads back to the start |
| PatchTables.EntryUndone | redirect/lib/DetoursImpl.cpp:354-387 | the same for one more table entry |
| PatchRuns.ExposedFirst | redirect/lib/DetoursImpl.cpp:354-387 | an effective site is followed by a live one before the first unnamed entry exactly when the first effective one is |
| PatchRuns.UnexposedNext | redirect/lib/DetoursImpl.cpp:323-350 | while no site is effective nothing changes, and a refusal behind an effective site exposes the table |
| PatchRuns.StageNext | redirect/lib/DetoursImpl.cpp:354-387 | a run refused behind its first effective site gets there unchanged, marks it and stops at the next live one |
| PatchRuns.ProgressNext | redirect/lib/DetoursImpl.cpp:354-387 | one more entry keeps what a patching run promises, or ends it with what a refused run promises |
| PatchTables.AddressShows | redirect/lib/DetoursImpl.cpp:260-274 | an address other than null shows in zeroed memory |
| Detours.Patcher.SaveBytes | redirect/lib/DetoursImpl.cpp:98-114 | saves once and at most sixteen bytes, which are what memory holds where they will be put back |
| Detours.Patcher.CountPadding | redirect/lib/DetoursImpl.cpp:127-137 | the number of padding bytes before the entry, up to the maximum |
| Detours.Patcher.IsAllInt3UpTo | redirect/lib/DetoursImpl.cpp:139-145 | true exactly when all the bytes are INT3 |
| Detours.Patcher.InstallDetourInAddressStore | redirect/lib/DetoursImpl.cpp:54-65 | writes the eight address bytes when access is granted, nothing otherwise |
| Detours.Patcher.GetAndSetAddressStore | redirect/lib/DetoursImpl.cpp:147-161 | an 8-aligned slot inside a run of 18 INT3 bytes, the first run when all access is granted; nothing written when there is none |
| Detours.Patcher.ClaimSlot | redirect/lib/DetoursImpl.cpp:189-200 | with all access granted, the slot of the first run of INT3 in the region, wherever the region lies; it was free, and in reach when the region is |
| Detours.Patcher.JumpFromEntry | redirect/lib/DetoursImpl.cpp:201-219 | the fourteen bytes with the address, or the six through the slot, which arrive when the slot holds the address and the jump can use it |
| Detours.Patcher.PatchNear | redirect/lib/DetoursImpl.cpp:163-187 | arrives at the detour in the layout the padding selects and touches nothing behind its five bytes; a site without saved bytes is undoable, and only padding before it is overwritten |
| Detours.Patcher.PatchFar | redirect/lib/DetoursImpl.cpp:189-247 | the layout the padding selects and nothing else written; through a slot when one is claimed, arriving unless the slot meets the jump or is out of reach |
| Detours.Patcher.PatchFunction | redirect/lib/DetoursImpl.cpp:249-258 | lands for every near or padded function, and for every other one whose region is in reach and whose six first bytes have no INT3 neighbours; undoable when nothing was saved before; the saved address moves by the padding used |
| Detours.Patcher.Patch | redirect/lib/DetoursImpl.cpp:260-274 | a ready function or import slot stands afterwards, and is undoable when nothing was saved before; nothing for a null target |
| Detours.Patcher.Unpatch | redirect/lib/DetoursImpl.cpp:276-281 | afterwards memory holds the saved bytes at their address and is unchanged elsewhere |
| Detours.Patcher.HandlePatch | redirect/lib/DetoursImpl.cpp:286-321 | one site: refused without a change, or done; a site nothing was done to is then undoable and stands if it was ready, and only its frame and a claimable slot changed; an undo needs a grant exactly when bytes are saved |
| Detours.Patcher.PatchSites | redirect/lib/DetoursImpl.cpp:344-350 | after success or refusal, undoing the entry's sites in reverse leads back outside the slots; names the refused site; after success all sites stand and all others are respected |
| Detours.Patcher.UndoSites | redirect/lib/DetoursImpl.cpp:333-342 | on success the sites are undone last to first; with all requests refused nothing changes, and a retained site makes it fail |
| Detours.Patcher.Handle | redirect/lib/DetoursImpl.cpp:323-350 | both directions for one entry, skipped entries included; after patching its ready sites stand and so do all sites apart from it |
| Detours.Patcher.ModifyAllPatches | redirect/lib/DetoursImpl.cpp:354-387 | patching a fresh table leaves one whose undoing leads back, whose entries stand on success, and leaves memory alone when a run over a table that is not exposed is refused; undoing a table of named entries is that undoing |
| Detours.Patcher.HandlePatching | redirect/lib/DetoursImpl.cpp:389-406 | from a fresh table: failed means restored outside the slots when all entries are named, and memory as patching left it when one is not; a table that is not exposed is restored by every run that does not succeed; the same mode again changes nothing |
| Detours.WorstRun | redirect/lib/DetoursImpl.cpp:354-406 | for every fresh table a run over zeroed memory that leaves a byte changed outside the slots exactly when the table is exposed, and its result |
| Detours.RefusedRollback | redirect/lib/DetoursImpl.cpp:371-406 | concrete runs with and without an unnamed entry, partial and failed, that keep a patch which a later undo leaves in place |
| Detours.Enable | redirect/lib/DetoursImpl.cpp:414-418 | after a successful run over named entries apart from each other whose sites are ready, every function entered at its old address leaves for its detour and every import slot holds its detour's address; with all requests granted the run succeeds |
| Detours.EnableThenDisable | redirect/lib/DetoursImpl.cpp:414-428 | both successful, they restore every byte outside the slots; after an enabling that did not succeed disabling reports success and changes nothing |
| DetourSites.SecondEnable | redirect/lib/DetoursImpl.cpp:98-247 | for every function, distance and padding: enabled, disabled and enabled again it leads to its detour exactly when the first save did not move its address, and what is left of its code when it did |
| DetourSites.Retarget | redirect/lib/DetoursImpl.cpp:189-219 | a site with a slot, patched for another far target, still leads to the first one |
| DetourSites.EntryOfInt3 | redirect/lib/DetoursImpl.cpp:147-219 | concrete run in which the entry itself is taken for the slot and does not lead to the detour |
| DetourSites.InsideRegion | redirect/lib/DetoursSetup.cpp:324-347 | concrete table of functions inside their store region and adjoining import slots that all deliver |
| DetourSites.TwoSites | redirect/lib/DetoursImpl.cpp:286-321 | two ready sites apart from each other both work when both are patched, in either order |
| DetourSites.TooClose | redirect/lib/DetoursImpl.cpp:189-243 | for every distance from 1 to 27 two ready functions of which one does not work when both are patched |
| Hashing.HashContiguous | include/core/Common/Hashing.hpp:452-471 | the hash of the bytes: whole blocks, then the last 64 bytes when some are left |
| Hashing.StoreAndAdvance | include/core/Common/Hashing.hpp:391-400 | stores the rest of the value when it fits, changes nothing otherwise |
| Hashing.TracksMore | include/core/Common/Hashing.hpp:391-400 | storing a piece keeps the buffer, read around from the cursor, the last 64 bytes of the stream |
| Hashing.TracksFlush | include/core/Common/Hashing.hpp:532-543 | mixing a full buffer keeps it too |
| Hashing.LastBlock | include/core/Common/Hashing.hpp:452-471 | one more mix with the last 64 bytes finishes the hash, whether they are a whole block or overlap |
| Hashing.HashBuffered | include/core/Common/Hashing.hpp:408-440 | agrees with the hash of the concatenated items exactly when the item size divides 64 or the stream fits the buffer |
| Hashing.CombineHelper.CombineData | include/core/Common/Hashing.hpp:520-553 | buffers a value of 1 to 64 bytes, in two parts when it straddles the end |
| Hashing.CombineHelper.Combine | include/core/Common/Hashing.hpp:560-590 | the hash of everything fed so far and the remaining arguments |
| Hashing.HashCombine | include/core/Common/Hashing.hpp:607-611 | the hash of the concatenated arguments, whatever their sizes |
| Hashing.AllFormsAgree | include/core/Common/Hashing.hpp:477-483 | one stream, cut in any ways, has one hash in all three forms, the skewed iterator excepted |
| Words.PowerDifference | include/core/Common/BitVector.hpp:387-391 | 2^E - 2^I has exactly the bits from I up to E |
| Words.SameWordsSameBits | include/core/Common/BitVector.hpp:516-521 | canonical words are equal exactly when the bits are |
| Words.IndicesAreSetBits | include/core/Common/BitVector.hpp:52-98 | the list of set bits holds every set bit, nothing else, in increasing order |
| Words.IndicesCount | include/core/Common/BitVector.hpp:179-184 | its length is the number of set bits |
| Words.WordsCounted | include/core/Common/BitVector.hpp:179-184 | counting the words counts the vector because unused bits are zero |
| Words.WindowFirst | include/core/Common/BitVector.hpp:230-239 | the lowest bit of the masked word is the first match |
| Words.WindowLast | include/core/Common/BitVector.hpp:258-270 | the highest bit of the masked word is the last match |
| Words.BitsDown | include/core/Common/BitVector.hpp:633-642 | joining each word with the low bits of the next moves all bits down |
| Words.BitsUp | include/core/Common/BitVector.hpp:683-691 | joining each word with the high bits of the one before moves all bits up |
| Words.FrontToBackExactly | include/core/Common/BitVector.hpp:761-774 | a copy from front to back moves every array right exactly when source and target do not overlap |
| BitVectors.BitVector.constructor | include/core/Common/BitVector.hpp:166-170 | the given number of equal bits, canonical |
| BitVectors.BitVector.SetUnusedBits | include/core/Common/BitVector.hpp:799-808 | exactly the bits past the size change |
| BitVectors.BitVector.Resize | include/core/Common/BitVector.hpp:358-363 | a prefix, or the old bits followed by the fill |
| BitVectors.BitVector.Set | include/core/Common/BitVector.hpp:374-378 | one bit set |
| BitVectors.BitVector.Reset | include/core/Common/BitVector.hpp:414-417 | one bit cleared |
| BitVectors.BitVector.Overwrite | include/core/Common/BitVector.hpp:381-446 | exactly the bits of the range get the value |
| BitVectors.BitVector.SetRange | include/core/Common/BitVector.hpp:381-407 | exactly the bits of the range are set |
| BitVectors.BitVector.ResetRange | include/core/Common/BitVector.hpp:420-446 | exactly the bits of the range are cleared |
| BitVectors.BitVector.Flip | include/core/Common/BitVector.hpp:448-453 | every bit flipped |
| BitVectors.BitVector.PushBack | include/core/Common/BitVector.hpp:483-498 | one more bit at the end |
| BitVectors.BitVector.PopBack | include/core/Common/BitVector.hpp:500-503 | the last bit removed |
| BitVectors.BitVector.Test | include/core/Common/BitVector.hpp:466-470 | the bit at the index |
| BitVectors.BitVector.FindFirstIn | include/core/Common/BitVector.hpp:212-243 | the first set or unset bit of the range, or -1 exactly when there is none |
| BitVectors.BitVector.FindLastIn | include/core/Common/BitVector.hpp:247-274 | the last set bit of the range, or -1 exactly when there is none |
| BitVectors.BitVector.FindLastUnsetIn | include/core/Common/BitVector.hpp:284-313 | the last unset bit of the range, or -1 exactly when there is none |
| BitVectors.BitVector.SetBits | include/core/Common/BitVector.hpp:52-98 | iterating find_next lists exactly the set bits |
| BitVectors.BitVector.Count | include/core/Common/BitVector.hpp:179-184 | the number of set bits |
| BitVectors.BitVector.Equals | include/core/Common/BitVector.hpp:516-521 | word equality is equality of the bits |
| BitVectors.BitVector.AndWith | include/core/Common/BitVector.hpp:526-540 | bitwise and, missing bits read as zero |
| BitVectors.BitVector.ResetAll | include/core/Common/BitVector.hpp:543-549 | clears the bits set in the other vector |
| BitVectors.BitVector.OrWith | include/core/Common/BitVector.hpp:582-588 | bitwise or on the longer of the two sizes |
| BitVectors.BitVector.XorWith | include/core/Common/BitVector.hpp:590-596 | bitwise exclusive or on the longer of the two sizes |
| BitVectors.BitVector.ShiftRight | include/core/Common/BitVector.hpp:598-645 | drops the first N bits and ends with N zeros |
| BitVectors.BitVector.ShiftLeft | include/core/Common/BitVector.hpp:647-695 | N zeros and then all but the last N bits, unused bits zero again |
| BitVectors.BitVector.ApplyMask | include/core/Common/BitVector.hpp:820-844 | adds or removes the bits the 32-bit mask words name, or do not name; bits past the mask stay |
| BlockMemory.CopyOverlapBlock | redirect/lib/VMemcpy.cpp:59-62 | two blocks that overlap copy the whole range |
| BlockMemory.CopyAlignedBlocks | redirect/lib/VMemcpy.cpp:65-78 | for every destination alignment the realigned blocks leave no gap, stay inside and are aligned |
| BlockMemory.Memcpy | redirect/lib/VMemcpy.cpp:98-122 | for every length and alignment the range equals the source and nothing else changed |
| BlockMemory.SplatBytes | redirect/lib/VMemset.cpp:103-106 | every byte of the scalar pattern is the value |
| BlockMemory.MemsetBlock | redirect/lib/VMemset.cpp:126-129 | a block of the value, in scalar pieces |
| BlockMemory.MemsetFirstLastBlock | redirect/lib/VMemset.cpp:147-150 | two blocks that overlap fill the whole range |
| BlockMemory.MemsetLoopAndLast | redirect/lib/VMemset.cpp:153-160 | the loop and the last block fill the range and stay inside |
| BlockMemory.Memset | redirect/lib/VMemset.cpp:183-210 | for every length and alignment exactly the range is filled |
| RefCount.StepKeeps | include/core/Common/IntrusiveRefCntPtr.hpp:145-155 | every atomic step of any thread keeps the invariant |
| RefCount.WrapKeeps | include/core/Common/IntrusiveRefCntPtr.hpp:197 | so does taking over the raw address of an object that another pointer holds meanwhile |
| RefCount.CopyKeeps | include/core/Common/IntrusiveRefCntPtr.hpp:198 | reading the field of a pointer that is in use keeps it |
| RefCount.RetainKeeps | include/core/Common/IntrusiveRefCntPtr.hpp:148 | so does the increment, at any later time |
| RefCount.MoveKeeps | include/core/Common/IntrusiveRefCntPtr.hpp:199-205 | so does the first write of a move or conversion, which takes over what the source still shows |
| RefCount.SwapKeeps | include/core/Common/IntrusiveRefCntPtr.hpp:225-229 | so does the first write of a swap, which leaves one address in the hands of the thread |
| RefCount.LandKeeps | include/core/Common/IntrusiveRefCntPtr.hpp:225-229 | so does the second one, which stores that address |
| RefCount.ReleaseKeeps | include/core/Common/IntrusiveRefCntPtr.hpp:150-151 | so does the decrement; the thread that takes the counter to zero alone owes the delete |
| RefCount.DeleteKeeps | include/core/Common/IntrusiveRefCntPtr.hpp:152-154 | so does the delete, with the counter at zero |
| RefCount.FinishKeeps | include/core/Common/IntrusiveRefCntPtr.hpp:213-234 | so does clearing the field, as reset and the end of a move do, or ending the pointer's life |
| RefCount.Safety | include/core/Common/IntrusiveRefCntPtr.hpp:190-254 | in every interleaved run nothing is touched after its deletion, counters count the holders, no pointer outlives its object, nothing is deleted twice |
| RefCount.DeletedExactlyOnce | include/core/Common/IntrusiveRefCntPtr.hpp:145-155 | with all threads at rest an object has been deleted exactly once when nothing holds it and not at all when something does |
| RefCountOps.OperationResult | include/core/Common/IntrusiveRefCntPtr.hpp:190-234 | whatever other threads do to other pointers meanwhile: a copy gives the new pointer the object of the source, a move leaves the source null, a swap exchanges the objects, a reset leaves null, no other pointer changes |
| RefCountOps.OperationEnds | include/core/Common/IntrusiveRefCntPtr.hpp:190-234 | a thread can always finish the operation it began |
| RefCountOps.CopyAssignment | include/core/Common/IntrusiveRefCntPtr.hpp:213-216 | the target gets the object of the source, which keeps it, and the temporary ends with the old object |
| RefCountOps.MoveAssignment | include/core/Common/IntrusiveRefCntPtr.hpp:213-216 | the same, and a source other than the target becomes null |
| RefCountOps.AssignmentRuns | include/core/Common/IntrusiveRefCntPtr.hpp:213-216 | such an assignment can be run from every state between two pointers that no thread is using, the same pointer on both sides included |
| RefCountOps.Lifetime | include/core/Common/IntrusiveRefCntPtr.hpp:190-234 | a run exists in which an object is adopted, shared and released twice, and was then deleted once |
| RefCountOps.ReleaseCounts | include/core/Common/IntrusiveRefCntPtr.hpp:150-151 | ending or resetting a pointer gives back one count of its object |

## Left out

- DenseMaps.Run: inserts keys other than the two reserved ones, as the assertion in LookupBucketFor demands; iterators appear only as the loop of operator==.
- DenseMaps.DenseMap.Grow: 32-bit overflow of counts and sizes, except the wrap-around in grow(0) and in decrementing zero.
- SmallDenseMap, element construction and destruction, and the debug epochs of DenseMap.
- XmlExpander.SkipAndExpand: the code of a numeric reference is unbounded, not wrapped to the width of unsigned long; references are translated to UTF-8, white space is not condensed.
- XmlRoundTrip.ParsePrinted: is about documents in normal form (valid names, no terminator inside a leaf, no blank data, no two data nodes side by side); attributes are parsed and dropped, as append_attribute does, and only their text has a round trip (ParsePrintedAttributes).
- XmlInPlace.Parse: element values stay unset (parse_no_element_values), and white space is neither trimmed nor condensed.
- XmlInPlace.ReadData: leaves the value of the parent element alone and does not trim or condense white space, as those flags are off.
- The indenting printer, and attribute lists of the DOM, which the parser never fills.
- DomList.XMLNode.RemoveFirstNode: asks for a child, as the assertion does; the early return of a build without assertions is not modelled. The same holds for RemoveLastNode.
- CompareXml.CompareXmlDocuments: asks that no document node lies inside the old document; messages are not modelled.
- TreeWriter.WriterImpl.Parse: the events of namespace declarations, the namespace of a name and the calls into exip are left out; attributes of one name come in the order of their list, where std::sort leaves the order open, and the assertion that a name is not empty is not modelled; the tree cursor is a path instead of a node pointer.
- TreeBuilder.XMLBuilder.StringData: nothing sees the value a detached attribute gets; namespaceDeclaration is left out.
- NsStack lookup: a level's start is taken from the level buffer's size, so no scoping law follows.
- Detours.Patcher.HandlePatching: patching a table that was patched before keeps it tidy, and its sites without a slot arrive, but undoing it is not claimed to lead back: what it undoes to is the memory of the first save. Nothing is assumed mapped below address 17, and pointers do not wrap.
- Detours.Enable: asks that functions lie 28 bytes apart, import slots 8, an import slot 22 bytes before or 14 behind a function, that store regions are within 32 bits of their functions, that the first fourteen bytes of a function have no two INT3 side by side, that an import slot is aligned and not all INT3, and that detours are addresses below 2^56.
- Hashing.HashCombine: values that must first be hashed by hash_value enter as the bytes of that hash; a value of more than 64 bytes, which the code calls unreachable, is excluded. The arithmetic of the mixer is left free.
- BitVectors.BitVector.ShiftLeft: the overlapping std::copy in wordShl is taken to move the words as memmove does; Words.FrontToBackExactly says for which sizes that matters.
- BitVector's invalid state, portable apply, anyCommon, the remaining queries, and 32-bit words.
- BlockMemory.Memcpy: source and destination are different buffers.
- RefCount.Safety: steps interleave in one order for all threads; relaxed memory ordering is not modelled. resetWithoutRelease, which leaks on purpose, and the base class without atomics are left out. A pointer is not changed while another thread uses it, as its documentation demands.
- File and console input and output, command-line drivers, the loader and export lookup, exip itself and APInt.
