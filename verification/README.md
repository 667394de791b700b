# A verified model of textfetch's portable core

textfetch prints facts about a machine. Most of it reads files; the part that computes is small and
hand-written, and this project models that part in Dafny and proves what it is for:

* **the IDs database parser** (`src/core/sys_utils.c`), which scans `pci.ids` in one pass and has a filtered
  mode that stops early. The filtered mode answers every query exactly as the full parse does, and the GPU
  line made from it is the same text;
* **the tree and forest** (`src/core/binary_trees.c`) the parser fills: a first-child / last-child /
  next-sibling heap structure with constant-time append and exactly-once release;
* **the string set** (`src/core/hashtable.c`): open addressing with unbounded probes, which refines a
  mathematical set;
* **the bitset and the CPU topology** (`src/core/bitset.c`, `src/platform/linux/hardware.c`): Kernighan
  counting is cardinality, and the topology does not depend on directory order;
* **the text editing** (`src/platform/linux/hardware.c`, `src/core/sys_utils.c`): the CPU name sanitiser, the
  cpuinfo parser with its early stop, and the duplicate grouping with truncated appends;
* **the drive list** (`src/platform/linux-common/hardware.c`), from the string set's contract alone.

## How it is laid out

Code that changes things step by step is a class or a method with loops, proved against a specification
function; the laws are then proved about that function.

| files | contents |
|---|---|
| `Bytes`, `Sequences`, `Bits` | bytes, C strings, subsequences, bitwise operators on natural numbers |
| `Trees`, `IdsSyntax`, `IdsParse` | forests as values, the meaning of a line, the parse as a fold over items, filtered versus full |
| `IdsLines` | which lines count and what they say, in plain bytes |
| `IdsFilter`, `IdsText` | what a filtered parse stores and when it stops; printing and parsing back; CRLF |
| `BinaryTrees`, `Forests`, `IdsScanner` | the heap nodes, the growable forest, and the byte scanner that fills it |
| `StringSet`, `Bitset` | the two set structures |
| `CpuTopology`, `CpuInfo`, `CpuModels` | the Linux CPU topology, the cpuinfo parser, and which line names a package |
| `CpuName`, `CpuNameWords`, `CpuNameMarks`, `CpuNameBuffer` | the name sanitiser on strings, what it keeps, which marks survive it, and its in-place form |
| `Duplicates`, `GpuLine`, `GpuInfo`, `Drives` | grouping, the line of a card, the GPU text, the drive list |

Reference definitions stand beside the code and share nothing with its control flow. `IdsParse.Answer` says
what a vendor/device query should get: the first vendor line with the id, then the first device line below it.
`CpuTopology.Summarises` says what a multiset of CPU nodes amounts to, with no order in it. `CpuModels.IsModel` says
which cpuinfo line names a package. `IdsLines.SaysVendor`, `SaysDevice` and `SaysNothing`, `Duplicates.IsListing`,
`GpuLine.IsCardLine`, `Drives.IsListed` and `CpuNameWords.Kept` say in plain bytes or words what a line, a listing, a card,
a mount and a name come to; the functions the methods are proved against are each tied to one of them.

Bytes are numbers 0 to 255, `size_t` is 64 bits wide and an address takes eight bytes. Modular arithmetic is written
out, and shown not to wrap, where `src/core/hashtable.c` compares and doubles sizes and where `next_pow2` shifts; it is
written out and does wrap in the hash, in the 32-bit total of `set_count_bits`, and in the cut of logical ids to 16
bits. The doubling of the roots array is plain, as the size checks in front of it keep it in range; so are
`value << 4` (four digits at most), the package counter (sixteen at most) and the duplicate counter (255 at most, which
`Duplicates.CountFrom` proves). What sysfs, `/proc`, `statvfs` and the file system say is an input. A frequency is a
whole number of kHz. Allocation succeeds, except where the code itself checks a size or `calloc` must refuse an array
that no `size_t` can measure.

## Where the code and its own words differ

The model follows the code.

* `src/platform/linux/hardware.c:473` makes package 0 up whenever no node counted for it, also when other packages
  exist. `CpuTopology.WithFallback` says exactly when.
* `include/bitset.h:57-58` announces a compiler builtin; the code clears the lowest bit in a loop.
* The sanitiser removes `(R)`, `(TM)` and `(tm)` one kind after another, so `((TM)R)` comes out as `(R)` and `((tm)TM)`
  as `(TM)`. Only `(tm)` is sure to be gone. `CpuNameMarks.RegisteredSurvives` and `TradeMarkSurvives` give the exact
  conditions, `NoRegisteredIfSealed` and `NoTradeMarkIfSealed` tests on the raw name.
* A vendor whose root the full roots array refuses is neither stored nor released; the parser goes on appending to it.
  It takes 2^60 stored roots to get there, and then the forest is the first 2^60 or more roots of the parse.
* The parser strips the CR of CRLF files, but a line that is just `C` is vendor 0xC with LF and the end of the database
  with CRLF. `IdsText.CrlfParse` gives the exact condition.
* A lookup of a device whose id equals its vendor's id answers with the vendor itself
  (`src/core/binary_trees.c:176`), in the full and in the filtered parse alike.

## Model

| member | source | states |
|---|---|---|
| `IdsParse.FilteredAgreesWithFull` | src/core/sys_utils.c:591-693 | For every database and every query list, looking up any of its queries in the filtered forest gives the same vendor name and device name, or the same absence, as in the full forest, despite early stop, duplicate vendors, duplicate devices and malformed vendor lines |
| `IdsParse.FilteredParseAnswers` | src/core/sys_utils.c:667-683 | A filtered parse gives each of its queries the reference answer: the name of the first vendor line with the id and of the first matching device line before the next vendor line (the vendor itself when both ids are equal) |
| `IdsParse.FullParseAnswers` | src/core/sys_utils.c:667-679 | A full parse gives every pair of ids, asked for or not, the same reference answer |
| `IdsParse.FullParseGroups` | src/core/sys_utils.c:667-679 | A full parse is one root per vendor line, duplicates kept, each with the device lines up to the next vendor line in order |
| `IdsParse.PendingRun` | src/core/sys_utils.c:627-684 | Loop invariant of the filtered run, from any coherent state over any remaining items: the lookup in the final forest is the answer still pending in that state |
| `IdsParse.PendingVendorFirst` | src/core/sys_utils.c:667-675 | A vendor line seen before the vendor of a query has come up keeps the pending answer of that query, whether the line is stored, skipped, or the very vendor asked for |
| `IdsParse.PendingVendorClosed` | src/core/sys_utils.c:667-675 | A vendor line seen after the first vendor of a query closes it: nothing that follows can change its answer, duplicates of the vendor included |
| `IdsParse.PendingDeviceHere` | src/core/sys_utils.c:676-679 | A device line below the vendor a query asks for settles the query exactly if it carries the device id asked for, and keeps the pending answer in every case |
| `IdsParse.PendingDeviceAway` | src/core/sys_utils.c:676-679 | A device line below any other branch, or below none, leaves the pending answer as it was |
| `IdsParse.GroupAnswers` | src/core/binary_trees.c:170-203 | tree_find_root and then tree_find, on the forest of all items, compute the reference answer |
| `IdsFilter.FilteredIsSubforest` | src/core/sys_utils.c:667-683 | The filtered forest is an ordered part of the full forest: its roots are roots of the full one in the same order, each with a subsequence of its children |
| `IdsFilter.FilteredStoresEachPairOnce` | src/core/sys_utils.c:554-579 | At the end of a filtered run the stored (vendor, device) pairs are pairwise distinct, each is one of the queries, and a query is flagged exactly if its pair is stored |
| `IdsFilter.FilteredStoresOnlyAskedVendors` | include/sys_utils.h:208-213 | Every root a filtered parse stores is the vendor of some query |
| `IdsFilter.LedgerStep` | src/core/sys_utils.c:568-576 | Each item keeps the agreement of flags and stored pairs, from any state that has it |
| `IdsFilter.ReadsOnWhileUnresolved` | src/core/sys_utils.c:681-683 | As long as some query is unresolved the run does not stop: the run over a + b is the run over b from the state after a |
| `IdsFilter.StopsOnceResolved` | src/core/sys_utils.c:681-683 | Once every query is resolved no later item is looked at: the run is the same whatever follows |
| `IdsText.ParsePrint` | src/core/sys_utils.c:447-510 | Every forest of depth two with 16-bit ids and trimmed one-line names, printed as lines of four hexadecimal digits, parses back to itself |
| `IdsText.ParsePrintParse` | src/core/sys_utils.c:627-684 | For all bytes, the full parse is a forest of that shape, and printing it and parsing the text changes nothing |
| `IdsText.EntryReadsBack` | src/core/sys_utils.c:458-509 | Of a printed entry the token reader takes four digits, whose value is the id, and the name reader returns the name |
| `IdsText.CrlfParse` | src/core/sys_utils.c:639-665 | Turning every LF into CRLF leaves the parsed forest unchanged if and only if the parse does not come upon a newline-terminated line that is exactly "C" |
| `IdsText.CrlfParseFiltered` | src/core/sys_utils.c:639-683 | Without such a line it leaves the parse unchanged under every filter too |
| `IdsText.ClassifyCr` | src/core/sys_utils.c:644-665 | A trailing CR changes the meaning of no line except a lone "C" |
| `IdsText.ClassifyBareC` | src/core/sys_utils.c:644 | A line that is just "C" is vendor 0xC with an empty name; with a CR behind it, it ends the database |
| `IdsSyntax.TrimIs` | src/core/sys_utils.c:499-509 | The trimmed name is the one span with no blank at either end and only blanks around it |
| `IdsSyntax.TrimTrims` | src/core/sys_utils.c:499-509 | A trimmed name has no blank at either end and only bytes of the line |
| `IdsSyntax.HexValueBound` | src/core/sys_utils.c:458-466 | A token of up to four digits fits 16 bits, so the cast to uint16_t loses nothing |
| `IdsLines.ClassifyIs` | src/core/sys_utils.c:639-665 | The exact byte form of each kind of line: a vendor line has one to four hexadecimal digits and not a digit more at its very start, a device line has one tab and then those; "C" and a blank end the database; every other line, two tabs deep, empty, a comment or without an identifier, says nothing |
| `IdsLines.HexDigitIs` | src/core/sys_utils.c:422-434 | "0" to "9" count from 0, "a" to "f" and "A" to "F" from 10, and no other byte is a digit |
| `IdsLines.NameIs` | src/core/sys_utils.c:499-509 | A name between blank bytes is read as just that name |
| `IdsLines.NothingRead` | src/core/sys_utils.c:639-662 | A line that says nothing could as well not be there, wherever it stands between whole lines |
| `IdsLines.TailNotRead` | src/core/sys_utils.c:643-646 | From a line of "C" and a blank on nothing is read |
| `IdsLines.VendorRead` | src/core/sys_utils.c:660-675 | A vendor line that the parser reaches is read as one vendor with the value of its digits and the trimmed rest, between what stands before and behind it |
| `IdsLines.DeviceRead` | src/core/sys_utils.c:660-679 | And so is a device line |
| `IdsLines.NothingParsed` | src/core/sys_utils.c:639-662 | Subsystem lines, comments and other lines that say nothing change no parse, full or filtered |
| `IdsLines.TailNotParsed` | src/core/sys_utils.c:643-646 | What follows a class line changes no parse, full or filtered |
| `IdsScanner.ParseHex` | src/core/sys_utils.c:447-475 | Accepts exactly the tokens of one to four hexadecimal digits not followed by another, and returns their length and value |
| `IdsScanner.ParseName` | src/core/sys_utils.c:488-510 | Returns the span of the remainder of the line with the blanks at both ends left out |
| `IdsScanner.NextItem` | src/core/sys_utils.c:627-665 | Cuts the line at the first newline and reads it; always moves forward, never past the end, and the items of the rest of the buffer are the item read in front of those still ahead |
| `IdsScanner.VendorIsWanted` | src/core/sys_utils.c:521-539 | True exactly if there is no filter or some unresolved query asks for the vendor |
| `IdsScanner.DeviceIsWanted` | src/core/sys_utils.c:554-579 | True exactly if there is no filter or an unresolved query asks for the pair; flags every such query, and the counter stays the number of unresolved queries |
| `IdsScanner.StoreVendor` | src/core/sys_utils.c:667-675 | The vendor arm takes the heap forest, the branch and the flags to what the fold prescribes; when the roots array can grow no more, the branch lives on outside the forest |
| `IdsScanner.StoreDevice` | src/core/sys_utils.c:676-679 | The device arm does so too, appending below the branch, wherever that lives |
| `IdsScanner.ParseLine` | src/core/sys_utils.c:627-684 | One round of the loop on the heap is one step of the fold, with its stop condition |
| `IdsScanner.ParseLoop` | src/core/sys_utils.c:627-684 | The cursor loop leaves in the heap forest exactly the first roots of the forest of the fold over the bytes, filtered or full: as many as the roots array can grow to hold, which is all of them below 2^60 |
| `IdsScanner.ParseSpan` | src/core/sys_utils.c:591-693 | NULL exactly for the rejected arguments or an oversized capacity; otherwise a valid new heap forest that stands for the first roots of the parse of the bytes, for any size_t number of bytes |
| `IdsParse.RootsNeedBytes` | src/core/sys_utils.c:627-675 | A parse gives no more roots than the database has bytes |
| `Trees.FindIsFirstInPreorder` | src/core/binary_trees.c:170-186 | The search returns the first node in preorder with the id, and fails only if no node has it |
| `Trees.FindRootIs` | src/core/binary_trees.c:188-203 | The root search returns the first root with the id |
| `Trees.LookupInFirst` | src/core/binary_trees.c:129-203 | A forest cut to its first roots answers a lookup as the whole one if and only if it has kept a root of the vendor, or there is none |
| `BinaryTrees.TreeFindFinds` | src/core/binary_trees.c:170-186 | tree_find on any well-linked chain returns the very heap node that is the first preorder match of the value |
| `BinaryTrees.CreateNodeN` | src/core/binary_trees.c:25-60 | A fresh node with the id and the name and no links; refused exactly for a NULL name or one of SIZE_MAX bytes |
| `BinaryTrees.LinkLast` | src/core/binary_trees.c:120-126 | The link writes touch only the parent and its last child, and leave the new node at the end of the chain of children |
| `BinaryTrees.AddChildN` | src/core/binary_trees.c:108-127 | Appending below any node of a chain or a forest keeps it acyclic, unshared and linked, with last_child at the end of each chain, and appends exactly one leaf below exactly that parent; a NULL parent, a NULL name or an oversized name changes nothing |
| `BinaryTrees.GrownValueAt` | src/core/binary_trees.c:120-126 | Seen on values alone, the append puts the leaf behind the children of the node at the preorder position of the parent and changes no other node |
| `BinaryTrees.GrownLinked` | src/core/binary_trees.c:120-126 | After the append the chain below the head is linked as before, with one leaf more below the parent, wherever the parent stands |
| `BinaryTrees.TreeFree` | src/core/binary_trees.c:205-223 | Releases every node of the chain and its name string exactly once, nothing else, and follows no link of a released node |
| `Forests.Forest.Create` | src/core/binary_trees.c:62-97 | An empty forest of the capacity asked for, at least one; refused exactly if the size in bytes would overflow |
| `Forests.Room` | src/core/binary_trees.c:138-161 | The number of roots the doubling can make room for from a given capacity: at least 2^60, and reached exactly where the next doubling would overflow |
| `Forests.Forest.MakeRoom` | src/core/binary_trees.c:138-161 | Doubling keeps every root in place; refused exactly when the forest holds as many roots as it can ever hold |
| `Forests.Forest.Add` | src/core/binary_trees.c:129-168 | The forest gains the tree as its last one; it is unchanged if the root is NULL, and exactly when it is full the tree stays outside |
| `Forests.Forest.AddChildToBranch` | src/core/binary_trees.c:108-127 | Appending below the root given to the forest last extends the last tree by one leaf, or only the tree outside if that root was refused |
| `Forests.Forest.FindRootNode` | src/core/binary_trees.c:188-203 | Returns the first root with the id, whose heap tree stands for the tree the search on values finds |
| `Forests.Forest.Destroy` | src/core/binary_trees.c:225-237 | Releases every node of every tree with its name, the roots array and the forest record, each exactly once, and nothing else |
| `StringSets.NextPow2` | src/core/hashtable.c:149-160 | The least power of two that is at least n, with a shift that never wraps; 0 exactly for n above SIZE_MAX / 2 |
| `Bits.MaskIsMod` | src/core/hashtable.c:179 | Masking with capacity - 1 is the remainder by the capacity, for every power of two |
| `StringSets.AfterIsMasked` | src/core/hashtable.c:205 | The masked increment is the cyclic successor of a slot |
| `StringSets.FindIndex` | src/core/hashtable.c:195-209 | The probe without a counter ends in fewer steps than there are slots, at the key or at the first empty slot of its walk, with only other keys in between |
| `StringSets.ProbeMisses` | src/core/hashtable.c:200-208 | A probe that ends in an empty slot proves the key absent from the whole table |
| `StringSets.Insert` | src/core/hashtable.c:97-103 | Filling that slot keeps every chain and the distinctness of keys, adds just the key and raises the count by one |
| `StringSets.FindFree` | src/core/hashtable.c:178-183 | The inner loop of the rehash ends in fewer steps than there are slots, at an empty slot, with no empty slot between it and the home of the key |
| `StringSets.GrowthRefused` | src/core/hashtable.c:82-90 | Growth is due and refused exactly when the set holds three quarters of the largest table, 3 * 2^58 keys |
| `StringSets.Rehash` | src/core/hashtable.c:173-186 | The new table holds exactly the old keys, each in one slot, chained from its home, and as many as before |
| `StringSets.CountIsCardinality` | src/core/hashtable.c:119 | With distinct keys the number of occupied slots is the size of the key set |
| `StringSets.StringSet.Create` | src/core/hashtable.c:49-74 | An empty set with a power-of-two capacity that is at least the one asked for; refused exactly above the largest table |
| `StringSets.StringSet.Resize` | src/core/hashtable.c:162-193 | Keeps the key set and the count; refused exactly if the size in bytes would overflow |
| `StringSets.StringSet.Add` | src/core/hashtable.c:76-106 | True exactly if the key was new and the set holds fewer than 3 * 2^58 keys; then the set gains just that key, else it is unchanged, even if the capacity grew on the way |
| `StringSets.StringSet.Contains` | src/core/hashtable.c:108-117 | Exact membership |
| `StringSets.StringSet.GetCount` | src/core/hashtable.c:119 | The cardinality of the set |
| `StringSets.Replay` | src/core/hashtable.c:76-117 | Any sequence of add and contains calls, from any reachable set, is answered as a mathematical set that takes up to 3 * 2^58 keys answers it |
| `Bitsets.ClearLowest` | src/core/bitset.c:57-60 | value & (value - 1) is smaller and has exactly one bit less |
| `Bitsets.PopCount32` | src/core/bitset.c:53-63 | The clearing loop ends with the number of set bits |
| `Bitsets.BlockStep` | src/core/bitset.c:82-84 | The members in one more block are as many as the set bits of its word |
| `Bitsets.Bitset.Add` | src/core/bitset.c:11-23 | Adds exactly the number if it is below the capacity, else changes nothing; no bit beyond the capacity is ever set |
| `Bitsets.Bitset.Remove` | src/core/bitset.c:39-51 | Removes exactly the number if it is below the capacity, else changes nothing |
| `Bitsets.Bitset.Has` | src/core/bitset.c:25-37 | Membership |
| `Bitsets.Bitset.CountBits` | src/core/bitset.c:65-87 | The 32-bit number of members below 32 times the lesser of the block count and ceil(capacity / 32), and of all members if enough blocks are asked for |
| `Bitsets.MembersDetermine` | src/core/bitset.c:11-51 | The members determine the words: no two block arrays of one length stand for the same set |
| `CpuTopology.DescribesUnique` | src/platform/linux/hardware.c:382-393 | A multiset of nodes has one summary only: presence, least logical id, core ids and peak frequency of every package |
| `CpuTopology.DescribesMore` | src/platform/linux/hardware.c:420-468 | Folding one more node into the arrays gives the summary of the multiset with that node, for every package |
| `CpuTopology.Topology.ProcessCoreNode` | src/platform/linux/hardware.c:420-468 | An offline node changes nothing; an online one updates only its package, with missing or out-of-range ids falling back, and the package count stays the number of existing packages |
| `CpuTopology.CountsRaw` | src/platform/linux/hardware.c:401-453 | A node counts for a package exactly if its hotplug file is missing, unreadable or not 0, and its package id is that package, or, for package 0, missing or outside 0 to 15; its logical id is cut to 16 bits and stands in for a missing core id |
| `CpuTopology.FallbackIs` | src/platform/linux/hardware.c:470-499 | The fallback adds package 0 with core 0, logical id 0 and the frequency of cpu0, exactly when package 0 does not exist and cpu0 or cpuinfo does, and leaves every other package alone |
| `CpuTopology.Topology.ApplyFallback` | src/platform/linux/hardware.c:470-499 | Acts as one more cpu0 node exactly if no node counted for package 0 and cpu0 or cpuinfo exists, other packages or not; the package count stays right |
| `CpuTopology.Topology.ParseTopology` | src/platform/linux/hardware.c:371-399 | Whatever the directory order, the arrays end as the summary of the multiset of nodes, fallback included |
| `CpuTopology.ParseTwice` | src/platform/linux/hardware.c:371-399 | Two directory orders of the same nodes give equal arrays, word by word, and equal package counts |
| `CpuName.SanitizeGuarantees` | src/platform/linux/hardware.c:698-746 | For any string the result has no standalone word CPU or APU, no "(tm)", no " @" and no trailing blank, and contains "with", "-Core" or "Processor" only if it starts with it |
| `CpuName.SanitizeIsSubsequence` | src/platform/linux/hardware.c:698-746 | The result is the input with some bytes left out: nothing is added or reordered |
| `CpuName.KeptIffClean` | src/platform/linux/hardware.c:698-746 | A name comes out unchanged if and only if there is nothing in it to remove |
| `CpuNameWords.SanitizeKeeps` | src/platform/linux/hardware.c:698-746 | Nothing more goes: of the words of the name without its marks, CPU and APU, in order, the result has the first ones, and the next, if there is one, holds "with", "-Core" or "Processor" or starts with "@" |
| `CpuNameWords.RemoveWordWords` | src/platform/linux/hardware.c:642-672 | The blank-separated words left by hw_remove_cpu_word are those of the input other than the removed word, in order |
| `CpuNameWords.RemoveFirst` | src/platform/linux/hardware.c:647-671 | The first standalone occurrence is taken out, and the search goes on where it stood |
| `CpuNameWords.WithoutInside` | src/platform/linux/hardware.c:656-669 | Inside the string a word goes with the blanks behind it and nothing else |
| `CpuNameWords.WithoutAtEnd` | src/platform/linux/hardware.c:659-669 | At its end a word goes with the blanks in front of it and nothing else |
| `CpuNameWords.SuffixGoes` | src/platform/linux/hardware.c:680-696 | From the start of the word that holds the first occurrence of the suffix all goes, with the one blank in front of it, and nothing else |
| `CpuNameWords.NoSuffix` | src/platform/linux/hardware.c:682-685 | A name that starts with the suffix or does not hold it stays as it is |
| `CpuNameWords.GenerationGoes` | src/platform/linux/hardware.c:705-712 | Up to the first blank behind the first "Gen" all goes and nothing else; without such a blank nothing goes |
| `CpuNameWords.NoGeneration` | src/platform/linux/hardware.c:705-712 | A name without "Gen" stays as it is |
| `CpuNameWords.EndGoes` | src/platform/linux/hardware.c:742-745 | The blanks at the end go and nothing else |
| `CpuNameWords.FrequencyGoes` | src/platform/linux/hardware.c:737-740 | From the first " @" on all goes and nothing else |
| `CpuNameMarks.RegisteredSurvives` | src/platform/linux/hardware.c:714-726 | "(R)" is there after the mark loops if and only if, once the "(R)" loop is done, "(", "R" and ")" stand in order with only text between them that the "(TM)" loop and then the "(tm)" loop erase completely; if they do not, the sanitised name has no "(R)" |
| `CpuNameMarks.TradeMarkSurvives` | src/platform/linux/hardware.c:714-726 | "(TM)" is there after the mark loops if and only if, once the "(TM)" loop is done, its four bytes stand in order with only text between them that the "(tm)" loop erases completely; if they do not, the sanitised name has no "(TM)" |
| `CpuNameMarks.NoRegisteredIfSealed` | src/platform/linux/hardware.c:698-746 | A test on the raw name: if no "(" directly follows "(" or "R", the sanitised name has no "(R)" |
| `CpuNameMarks.NoTradeMarkIfSealed` | src/platform/linux/hardware.c:698-746 | A test on the raw name: if no "(" directly follows "(", "T" or "M", the sanitised name has no "(TM)" |
| `CpuNameMarks.RegisteredComesBack` | src/platform/linux/hardware.c:714-726 | "((TM)R)" comes out as "(R)" |
| `CpuNameMarks.TradeMarkComesBack` | src/platform/linux/hardware.c:714-726 | "((tm)TM)" comes out as "(TM)" |
| `CpuNameMarks.StripLeaves` | src/platform/linux/hardware.c:716-726 | For any list of other marks removed in turn: an occurrence of a mark is left if and only if the mark was spelled with gaps that these removals erase |
| `CpuNameMarks.DropMarkReduces` | src/platform/linux/hardware.c:717-726 | The leftmost-first loop leaves what any order of removals leaves |
| `CpuName.RemoveWordRemoves` | src/platform/linux/hardware.c:647-671 | hw_remove_cpu_word leaves no standalone occurrence of its word, also none made by its own removals |
| `CpuName.RemoveWordKeepsOut` | src/platform/linux/hardware.c:647-671 | Removing one word recreates no other word or mark that was absent |
| `CpuName.TruncateIsPrefix` | src/platform/linux/hardware.c:680-696 | The truncation keeps a prefix cut in front of a blank, in which the suffix occurs only at the start |
| `CpuNameBuffer.MoveDown` | src/platform/linux/hardware.c:669 | The overlapping memmove takes the chosen range out of the string in the buffer and keeps the terminator |
| `CpuNameBuffer.RemoveCpuWord` | src/platform/linux/hardware.c:642-672 | In place, with strstr, boundary tests and memmove, the buffer ends as the string the specification gives; the loop ends |
| `CpuNameBuffer.TruncateCpuSuffix` | src/platform/linux/hardware.c:680-696 | In place, the buffer ends as the truncated string |
| `CpuNameBuffer.RemoveMark` | src/platform/linux/hardware.c:717-726 | The prefix loop removes occurrences of a mark until none is left, and ends |
| `CpuNameBuffer.TrimBlanks` | src/platform/linux/hardware.c:742-745 | The last loop drops exactly the blanks at the end |
| `CpuNameBuffer.SanitizeCpuName` | src/platform/linux/hardware.c:698-746 | The whole in-place sanitiser computes the specification the guarantees are proved about |
| `CpuInfo.CompleteIsFinal` | src/platform/linux/hardware.c:622-632 | Once every existing package has a model, no further line changes any model |
| `CpuInfo.FindSocket` | src/platform/linux/hardware.c:614-619 | The least existing package whose logical id is the number, or none if there is no such package |
| `CpuInfo.SearchSocket` | src/platform/linux/hardware.c:614-619 | The loop finds that package |
| `CpuInfo.ModelsComplete` | src/platform/linux/hardware.c:547-563 | True exactly if some package exists and every existing one has a model |
| `CpuInfo.ReadModelLine` | src/platform/linux/hardware.c:595-633 | One round of the loop is one step of the fold over lines, and it stops only when every package has a model |
| `CpuInfo.ParseX86CpuModel` | src/platform/linux/hardware.c:590-634 | Stopping early gives the same models as reading every line, for the packages the topology arrays hold |
| `CpuModels.GetCpuModels` | src/platform/linux/hardware.c:338-353 | From directory nodes and cpuinfo lines to models: each package has the first name the file offers it, or none; a "model name" line offers its value, cut to 127 bytes and sanitised, if something is left of it, to the least existing package whose least logical id the last "processor" line in front of it carries; whatever the directory order |
| `CpuModels.ModelsAfter` | src/platform/linux/hardware.c:595-633 | Reading all lines gives every package that first offered name |
| `CpuModels.StrtoulReads` | src/platform/linux/hardware.c:615 | Blanks, an optional sign, decimal digits and anything that is no digit are read as the number, cut at 2^64 - 1, or as its negative modulo 2^64 |
| `CpuModels.StrtoulReadsDecimal` | src/platform/linux/hardware.c:615 | The decimal numeral of a 64-bit number is read back as that number |
| `CpuModels.CarriesGives` | src/platform/linux/hardware.c:596-609 | A line with a key, a colon behind it and a value, in bytes, is read with that key and that value: up to a newline and without one blank in front |
| `CpuModels.GivesCarries` | src/platform/linux/hardware.c:596-609 | Whatever is read as key and value stands in the line like that |
| `Duplicates.GroupsSound` | src/core/sys_utils.c:322-344 | Each group stands for a non-empty string of the list, with its multiplicity |
| `Duplicates.GroupsComplete` | src/core/sys_utils.c:322-344 | Each non-empty string of the list has its group |
| `Duplicates.GroupsDistinct` | src/core/sys_utils.c:327-337 | No string has two groups |
| `Duplicates.MultiplicitiesAddUp` | src/core/sys_utils.c:339-344 | The multiplicities add up to the number of non-empty entries |
| `Duplicates.DecimalReadsBack` | src/core/sys_utils.c:348 | The printed multiplicity denotes it |
| `Duplicates.AppendTruncated` | src/core/sys_utils.c:351-357 | An append to a truncated text, itself truncated, is the truncation of the full append, separator included |
| `Duplicates.CountFrom` | src/core/sys_utils.c:327-344 | Tells whether an entry is the first of its group, and then counts the group, within the range of uint8_t |
| `Duplicates.GroupsInOrder` | src/core/sys_utils.c:322-337 | The groups stand in the order in which their texts first occur |
| `Duplicates.LineReadsBack` | src/core/sys_utils.c:346-357 | A line is the text alone if it occurs once, else the decimal numeral of its number of occurrences without leading zeros, " x ", and the text |
| `Duplicates.TextIsListing` | src/core/sys_utils.c:322-358 | The ideal text is what the buffer held and one line per distinct non-empty text in first-occurrence order, joined by a newline and five blanks |
| `Duplicates.FormatDuplicates` | src/core/sys_utils.c:315-359 | The buffer ends as the first buf_size - 1 bytes of that listing, in plain bytes; no byte at or beyond buf_size is written |
| `Duplicates.DistinctListing` | src/core/sys_utils.c:322-358 | Names that all differ are listed as they are, one per line |
| `GpuInfo.ModelsAgree` | src/platform/linux/hardware.c:966-988 | The model names built from a parse filtered by the cards are those built from the full parse |
| `GpuInfo.GpuTextAgrees` | src/platform/linux/hardware.c:872-889 | For every database, GPU list, buffer and earlier content, the text built from the filtered parse, with queries from the first sixteen cards, is the text built from the full parse |
| `GpuInfo.GpuTextCrlf` | src/platform/linux/hardware.c:872-889 | CRLF line ends in the database do not show in the text unless the parse comes upon a bare "C" line |
| `GpuLine.IdSuffixReadsBack` | src/platform/linux/hardware.c:985-986 | The four printed digits, upper case, denote the part id |
| `GpuLine.ModelIsCardLine` | src/platform/linux/hardware.c:967-986 | The line of a card, in bytes: the vendor name up to its first zero byte, or "Generic GPU"; a blank and the device name if there is one; " [0x", four digits and "]"; of all that the first 255 bytes |
| `GpuLine.CardLineParts` | src/platform/linux/hardware.c:985-986 | Where vendor, blank, device and suffix stand when both names are known and fit |
| `GpuLine.CardLineVendorOnly` | src/platform/linux/hardware.c:967-986 | The same without a device: nothing between the vendor and the suffix |
| `GpuLine.CardLineUnknown` | src/platform/linux/hardware.c:967-986 | The same without a vendor: "Generic GPU" and the suffix |
| `GpuLine.OneCard` | src/platform/linux/hardware.c:990-995 | The text of a single card is its line |
| `GpuLine.DistinctCards` | src/platform/linux/hardware.c:990-995 | Cards whose lines all differ are shown line by line, as far as there is room |
| `GpuInfo.OneCardAnswer` | src/platform/linux/hardware.c:853-908 | For one card that the database knows, where the answered vendor name, device name and the id stand in the text |
| `GpuInfo.LookupPair` | src/platform/linux/hardware.c:971-983 | tree_find_root and tree_find on the heap forest give the names the search on values gives |
| `GpuInfo.BuildModels` | src/platform/linux/hardware.c:966-988 | One model string per shown card, at most sixteen, in list order |
| `GpuInfo.LookupNames` | src/platform/linux/hardware.c:953-996 | The buffer ends with the listing of the card lines, in plain bytes, for the names the searches on the forest give, or for none without a forest |
| `GpuInfo.BuildQueries` | src/platform/linux/hardware.c:872-876 | The queries are the ids of the first sixteen cards, in order |
| `GpuInfo.GetGpuInfo` | src/platform/linux/hardware.c:853-908 | The whole GPU line, run through the filtered heap parse, is the text of the first roots of the filtered parse, as many as the array can hold; and whenever each shown vendor has its first root among them, it is the text a full parse would give and the listing, in plain bytes, of the card lines for the reference answers of the first sixteen cards; no card gives no text |
| `GpuInfo.NamesAgreeIffRoom` | src/platform/linux/hardware.c:889-895 | The filtered heap forest names every shown card as the full parse does if and only if each shown vendor that has a root has one among those there is room for |
| `GpuInfo.RoomBelow` | src/platform/linux/hardware.c:889 | For a pci.ids of up to 2^60 bytes that is always so |
| `Drives.IgnoredAtBoundary` | src/platform/linux-common/hardware.c:192-197 | A mount point is ignored exactly if it is the ignored path or lies below it; a sibling with the same prefix is not |
| `Drives.CheckMount` | src/platform/linux-common/hardware.c:199-221 | Device prefix, loop devices, file system types and every ignored mount point decide, nothing else |
| `Drives.AcceptedIff` | src/platform/linux-common/hardware.c:156-221 | A mount is accepted exactly by its device prefix, file system type, directory and size: each prefix, type and ignored directory is spelled out |
| `Drives.AcceptedAre` | src/platform/linux-common/hardware.c:156-168 | The accepted mounts are those, in their order and as often as they come |
| `Drives.FirstMountsFaithful` | src/platform/linux-common/hardware.c:156-174 | The list of first mounts has exactly the devices of the accepted mounts, none twice |
| `Drives.FirstMountsGrow` | src/platform/linux-common/hardware.c:170-173 | Later mounts only add to its end, so each device stands there by its first accepted mount |
| `Drives.ShownIffFirst` | src/platform/linux-common/hardware.c:170-173 | What the loop shows is that list if and only if no repeated mount of a device comes upon a full set that lacks the device, in particular whenever the distinct devices fit the set |
| `Drives.ListDrives` | src/platform/linux-common/hardware.c:156-174 | For every mount sequence the loop shows the accepted mounts whose device the set does not hold yet, by the contract of the string set alone |

## Left out

Contracts stated for less than everything:

- GpuInfo.GetGpuInfo: where the roots array overflows, past 2^60 stored roots, names agree exactly as `GpuInfo.NamesAgreeIffRoom` says; that different names could still print as one text is not followed up.

Modelled on values rather than in place:

- Input bytes, `/proc` lines, mount entries and the linked list of GPUs are sequences, since the code only reads them.
- The core bits of a package inside `cpu_data_t` are a sequence of words updated through `Bitsets.WithMember`, which `Bitsets.Bitset.Add` is proved to compute in place.
- Node names and stored keys are values of the node or slot; the release of a node's name is modelled, the buffer behind it is not.
- The cpuinfo parser cuts key and value out of its line buffer as values instead of writing terminators into it; model strings are values, edited in place in a buffer of their own.

Not modelled:

- File, directory, process and memory-mapping access (`util_read_*`, `util_parse_ids_path`, `readdir`, `statvfs`, `getmntent`): their results are inputs.
- Allocation failure, apart from the size checks the code makes itself and the refusal of a `calloc` whose size overflows.
- NULL arguments of the set, bitset and formatter entry points, which return at once.
- `strset_destroy` and the freeing of GPU lists: single loops over what they own.
- macOS, Android and Vulkan back ends, the ARM cpuinfo parser with its embedded table, user interface, options, colours and verbose logging.
- `util_format_size`, battery health and the display of frequencies: floating-point output. Peak frequencies are compared as whole kHz.
- Uptime, memory totals, numeric-string checks, shell and vendor name lookups: short facts of one branch each.
