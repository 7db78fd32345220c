# Verified models of a small database engine

This project models the parts of a small database engine, and of the experiments beside it, that hold
its invariants, and proves what they are for.

- **The disk B-tree** (`PageTrees`, `PagePaths`, `PageRows`, `PageEdits`, `Distribution`, `DiskDeal`,
  `DiskOccupancy`, `DiskTree`, `DiskCursor`, `DiskPayload`): a store is a map from page numbers to pages, a
  tree a page number and a height in it. Redistribution among siblings keeps entries and shape; insertion
  and removal are a finite map over every run; a cursor reads every cell once in key order; payloads come
  back from their overflow chains.
- **The textbook B+ tree** (`TextbookFringe`, `TextbookTree`), on the same theory of stores: every run of
  insertions keeps depth, occupancy, order and leaf chain.
- **The two expression parsers** (`Expressions`, `PrattParser`, `PrattErrors`, `CppParser`): parsing and flattening
  are inverse to each other, an error is at the first token that cannot be mended, and the parsers agree.
- **The clustered index** (`Bytes`, `PageLists`, `SlottedPages`, `ClusteredIndex`, `ClusteredScan`,
  `ClusteredEdits`, `ClusteredLoad`, `ClusteredTree`, `FreeList`): in-place byte operations are list
  operations; search, scans, histories within a leaf and ascending loads are proved on the leaf chain.
- **The two caches** (`BufferPool`, `Catalog`): whatever is cached, they show a plain map.
- **The protocols** (`Server`, `Transactions`): each method is one step of one thread, and the invariants hold
  after every interleaving.
- **UPDATE** (`Update`): row-by-row replacement and the simultaneous image.

Objects the program updates in place are classes whose methods have the program's loops and are proved
against functions and predicates on values; the lemmas are about those. Ghost parameters such as the height
of a tree or the path taken are for the proofs only. Sockets, files, clocks and the contents of responses
are parameters of the steps.

Where the code does not do what one would expect of it, the exact condition is proved:

- a search of the textbook tree for a key that is not stored finds the next stored key exactly when no separator
  lies between (`TextbookTree.BPlusTree.Search`, with an input in `TextbookTree.SearchMisses`);
- moving records to a new leaf brings deleted ones back to life, exactly those from the middle on
  (`ClusteredLoad.RevivedExact`, with an input in `ClusteredLoad.TombstoneRevived`);
- attaching a split leaf is right only for a first or last child (`ClusteredLoad.SeparatorExact`, with an input
  in `ClusteredLoad.MiddleLeafLost`);
- a complete line is left in a connection exactly behind a blank one (`Server.ServerContext.Do`, with an input in
  `Server.LineLeftLying`);
- an UPDATE that exchanges keys is refused although its image is a table (`Update.ExchangeRefused`, with a
  statement in `Update.ExchangeByUpdate`);
- a child too large for a page-zero root stays where it is (`DiskTree.LargerChild`).

`dafny verify dfyconfig.toml` checks everything.

## Model

| member | source | states |
|---|---|---|
| Distribution.Pack | experiments/cursor/btree.rs:1711-1726 | For cells of any sizes, the counts of the pages plus one divider between neighbours add up to the number of cells; for equal sizes the pages are packed full. |
| Distribution.Distribute | experiments/cursor/btree.rs:1711-1749 | Whatever the sizes, counts plus dividers add up to the cells whenever the backward shift does not underflow; for equal-sized cells, at least two per page and some input, it never underflows, the number of pages is the least possible, no page is empty or over its usable space, the first page has at least as many cells as the second, and every count is given outright by the number of cells, the capacity and the half: the last page is filled up to the half from the left, page by page, and the first then gets one cell if it is short. |
| Distribution.FirstIsLargest | experiments/cursor/btree.rs:1743-1748 | With those counts the first page has at least as many cells as the second. |
| DiskDeal.Pager.Alloc | experiments/cursor/btree.rs:1759-1762 | An allocated page is new, has a number other than 0 and is empty; all other pages stay. |
| DiskDeal.Pager.Collect | experiments/cursor/btree.rs:1698-1709 | Draining the siblings and cutting the dividers from the parent yields, in order, every cell of the siblings and every divider, each divider pointing at the right child of the sibling before it; the siblings are left empty and the parent is left with one pointer for all of them. |
| DiskDeal.Pager.FitPages | experiments/cursor/btree.rs:1757-1767 | The siblings become as many as asked for: pages beyond are freed from the right, missing ones are allocated; which pages these are, and that all others stay, is stated. |
| DiskDeal.Pager.HeapOrder | experiments/cursor/btree.rs:1769-1773 | Renumbering the siblings in the iteration order of the heap permutes their page numbers and keeps their indices, for every order the heap may have. |
| DiskDeal.Pager.Deal | experiments/cursor/btree.rs:1751-1804 | Dealing the cells out again gives each page the count asked for; the pages and their new dividers joined are exactly the cells collected, the last page keeps the old rightmost child, and the parent holds the new dividers where the old ones were. |
| PageRows.RebalancedKeeps | experiments/cursor/btree.rs:1687-1807 | One redistribution keeps the subtree of the parent a tree with all leaves at one depth and no page twice, and keeps its in-order entries, for any number of siblings, any pages given up or taken and any order of page numbers; the reachable pages change by exactly those given up and taken. |
| PageRows.JoinOrder | experiments/cursor/btree.rs:1694-1709 | Reading siblings and their dividers under the parent, and reading the one page that joins them, give the same in-order entries. |
| DiskOccupancy.ShrinkSettles | experiments/cursor/btree.rs:1641-1669 | Pulling the only child of an empty root up, when it fits, gives a settled tree one level lower with the same entries, pages but one, and order. |
| DiskOccupancy.GrowUnsettled | experiments/cursor/btree.rs:1671-1685 | Moving an overflowing root down under itself gives a tree one level higher with the same entries, ready to be redistributed at the new page. |
| DiskOccupancy.DealtEnough | experiments/cursor/btree.rs:1711-1749 | The page counts of the distribution leave the parent with at most one cell more and no sibling empty or too full. |
| DiskOccupancy.DealUnsettles | experiments/cursor/btree.rs:1687-1807 | After one redistribution only the parent may still be too full or too empty, and the tree has the same entries in the same order. |
| DiskTree.LargerChild | experiments/cursor/btree.rs:1641-1669 | An empty root whose only child does not fit into it is left as it is, and the tree is still a valid one: this is the smaller root on page zero. |
| DiskTree.NeverEmpty | experiments/cursor/btree.rs:841-894 | The leaf a removed internal entry is replaced from always has an entry to give. |
| DiskTree.SplitRoot | experiments/cursor/btree.rs:2706-2716 | Keys 1 to 4 inserted in order into a new tree with three cells a page, for any number of siblings per side and any underflow test: the root has key 3 over the leaves [1, 2] and [4]. |
| DiskTree.BTree.constructor | experiments/cursor/btree.rs:460-472 | A tree on a fresh page is valid and empty. |
| DiskTree.BTree.LoadSiblings | experiments/cursor/btree.rs:1838-1866 | The siblings are exactly those within the number per side of the page, one side making up for what the other has too few of, with their indices; the page itself is among them, and at least two unless the parent has no cells. |
| DiskTree.BTree.PageCounts | experiments/cursor/btree.rs:1711-1749 | In a configured tree the counts are those of the distribution, given outright: they add up, no page is empty or over capacity, there are no more pages than the cells fill, and the first has at least as many cells as the second. |
| DiskTree.BTree.Redistribute | experiments/cursor/btree.rs:1687-1807 | Under any parent, after any edit of one of its children, the cells of exactly those siblings and their dividers are dealt out again by the counts; entries, order and other pages are kept, and only the parent is left to be looked at. |
| DiskTree.BTree.Balance | experiments/cursor/btree.rs:1627-1810 | From any page that may be too full or too empty, balancing up to the root ends in a valid tree of the same entries; the measure decreases on every recursive call. Its first step is stated: nothing changes exactly when the page is neither too full nor empty nor half empty below the root; an empty root takes over its only child when it fits; a root too full grows; in every other case the siblings are dealt out again. |
| DiskTree.BTree.TakeOverChild | experiments/cursor/btree.rs:1641-1669 | An empty root takes over the cells and the right child of its only child, whose page is freed, if they fit, and else stays as it is. |
| DiskTree.BTree.GrowRoot | experiments/cursor/btree.rs:1671-1685 | The cells and right child of the root move to a new page, and the root is left empty over it; the tree has the same entries one level higher. |
| DiskTree.BTree.BinarySearch | experiments/cursor/btree.rs:556-575 | The index of the key if it is there; otherwise the place where all smaller keys are left and all greater ones right of it. |
| DiskTree.BTree.Search | experiments/cursor/btree.rs:528-555 | Descends to the page with the key and its index, or to the leaf and place the key belongs to in the order of the whole tree; the parents are the path. |
| DiskTree.BTree.SearchLeafKey | experiments/cursor/btree.rs:903-945 | The greatest (least) entry below a page: nothing of its subtree follows (precedes) the leaf reached. |
| DiskTree.BTree.Get | experiments/cursor/btree.rs:475-485 | What the map has under the key, or none. |
| DiskTree.BTree.Max | experiments/cursor/btree.rs:947-960 | The last entry of the tree in key order, or none. |
| DiskTree.BTree.Insert | experiments/cursor/btree.rs:664-687 | On every valid tree insertion terminates and is insertion into, or replacement in, a finite map; the tree stays valid (sorted, leaves at one depth, no page twice, no empty leaf but the root, none too full) and no other page of the pager changes. A key above all others in a tree of one leaf is appended to it, and the leaf then balanced. |
| DiskTree.BTree.TryInsert | experiments/cursor/btree.rs:689-703 | As insertion, but refuses and changes nothing exactly when the key is there. |
| DiskTree.BTree.Substitute | experiments/cursor/btree.rs:856-894 | An internal entry is replaced by its predecessor when the left child has at least as many cells as the right one, else by its successor: the in-order entries lose exactly the entry removed. |
| DiskTree.BTree.TakeOut | experiments/cursor/btree.rs:841-894 | Taking an entry out of a leaf or an internal page removes exactly that key from the map and leaves one leaf to be balanced, with its path. |
| DiskTree.BTree.RemoveEntry | experiments/cursor/btree.rs:841-894 | Nothing is changed if the key is absent; otherwise its entry comes back and exactly it is gone, before any balancing. |
| DiskTree.BTree.Remove | experiments/cursor/btree.rs:805-839 | On every valid tree removal, with the second balancing where a substitute was taken from a leaf below, terminates and is removal from a finite map; the entry removed is returned, the tree stays valid. |
| DiskTree.BTree.Run | experiments/cursor/btree.rs:664-894 | Every sequence of insertions and removals acts as the same sequence on a finite map and keeps every invariant of the tree, for any number of siblings per side, any underflow test, ordinary or page-zero root. |
| DiskCursor.DownReads | experiments/cursor/btree.rs:2070-2160 | The positions a walk below a page visits hold the in-order entries of that page. |
| DiskCursor.DownLists | experiments/cursor/btree.rs:2070-2420 | A walk below a page lists every (page, slot) of its subtree, each exactly once. |
| DiskCursor.DownStep | experiments/cursor/btree.rs:2349-2420 | Descending into child i leaves cell i as the next thing above. |
| DiskCursor.SettledWalkable | experiments/cursor/btree.rs:664-894 | A tree that insertions and removals have built can be walked: no leaf but the root is empty. |
| DiskCursor.Walk | experiments/cursor/btree.rs:2349-2420 | A new cursor yields every (page, slot) of a tree exactly once, in key order, also from an empty root with one child. |
| DiskCursor.WalkTree | experiments/cursor/btree.rs:2349-2420 | A cursor over a tree as the B-tree keeps it reads exactly its in-order entries. |
| DiskCursor.Cursor.MoveToLeftmost | experiments/cursor/btree.rs:2145-2160 | Goes down first children to a leaf; what is still to come is the whole subtree, then what was above. |
| DiskCursor.Cursor.Climb | experiments/cursor/btree.rs:2382-2412 | Goes up to the nearest page with a cell still to return, losing nothing; if there is none, nothing was left. |
| DiskCursor.Cursor.TryNext | experiments/cursor/btree.rs:2349-2420 | Returns the first of the positions still to come and leaves the rest; none and done exactly when nothing is left, and then for ever. |
| DiskCursor.Cursor.Drain | experiments/cursor/btree.rs:2349-2424 | Repeated calls yield all positions still to come in order and end; the number of them decreases. |
| DiskPayload.OverflowPager.AllocCell | experiments/cursor/btree.rs:1871-1924 | A payload that fits is stored whole; a longer one keeps just so much that the local part and the page number of its chain together take the most a cell may, and the rest is in a chain of fresh overflow pages, all of them full but the last, which is not empty and ends at page 0; other pages stay. |
| DiskPayload.OverflowPager.AllocChain | experiments/cursor/btree.rs:1893-1921 | The chain built holds exactly what was left of the payload, on distinct new pages, all full but the last. |
| DiskPayload.OverflowPager.ReassemblePayload | experiments/cursor/btree.rs:2030-2063 | Joining a stored cell gives the payload it stores. |
| DiskPayload.OverflowPager.FreeCell | experiments/cursor/btree.rs:2006-2028 | Frees exactly the overflow pages of the cell. |
| DiskPayload.OverflowPager.RoundTrip | experiments/cursor/btree.rs:1871-2063 | For every payload: stored, joined and freed again, it reads back unchanged and the pages are what they were before. |
| TextbookTree.BPlusTree.constructor | experiments/b+tree_transactions/bplustree.py:6-21 | A new file is a valid tree that stores nothing. |
| TextbookTree.BPlusTree.NewPage | experiments/b+tree_transactions/bplustree.py:23-31 | A new page has an unused id and is empty. |
| TextbookTree.BPlusTree.FirstGreater | experiments/b+tree_transactions/bplustree.py:43-46 | The scan of the children finds the first key above the one looked for. |
| TextbookTree.BPlusTree.Search | experiments/b+tree_transactions/bplustree.py:33-53 | A stored key is always found, with its values. For any key, something is found if and only if the first in-order entry at the key or above is a key and no separator, and then it is the least stored key at or above it. |
| TextbookTree.BPlusTree.InsertAt | experiments/b+tree_transactions/bplustree.py:58-88 | From any page on the path of the key down, insertion adds one value for the key and keeps the whole tree valid. |
| TextbookTree.BPlusTree.Insert | experiments/b+tree_transactions/bplustree.py:55-56 | Insertion adds one value under the key; a key above all others in a tree of one leaf is appended to it, or splits it at its third key; insertion keeps: leaves at one depth, sorted and separated keys, 2 to 4 keys in every page but the root, and the leaf chain equal to the in-order leaves. |
| TextbookTree.BPlusTree.SplitLeaf | experiments/b+tree_transactions/bplustree.py:90-112 | Splitting a leaf with five keys restores the whole invariant and stores the same values. |
| TextbookTree.BPlusTree.SplitInternal | experiments/b+tree_transactions/bplustree.py:140-161 | Splitting an internal page with five keys restores the whole invariant and keeps the in-order entries. |
| TextbookTree.BPlusTree.InsertIntoParent | experiments/b+tree_transactions/bplustree.py:114-138 | Entering a new page, into a new root or into the parent found by searching, restores the invariant; the in-order entries are those of the tree as if it had never been split. |
| TextbookTree.BPlusTree.FindParent | experiments/b+tree_transactions/bplustree.py:163-180 | The search from the root finds a page that has the target as a child exactly when the target is below. |
| TextbookTree.BPlusTree.Run | experiments/b+tree_transactions/bplustree.py:55-88 | After any sequence of insertions a key is stored if and only if it was inserted, with one value for each time. |
| TextbookTree.KeyNextMeans | experiments/b+tree_transactions/bplustree.py:33-53 | The condition for a search to find something, in other words: there is a stored key at or above the one looked for, and no separator above that one and not above the stored one. |
| TextbookTree.LeafExact | experiments/b+tree_transactions/bplustree.py:36-41 | What the leaf a search ends at holds decides that condition on the whole tree. |
| TextbookTree.BeyondSeparator | experiments/b+tree_transactions/bplustree.py:43-49 | What follows a subtree in order begins with a separator. |
| TextbookTree.SearchMisses | experiments/b+tree_transactions/bplustree.py:33-53 | Inserting 1, 2, 10, 20 and 30 makes the leaves [1, 2] and [10, 20, 30]; searching for 5 then finds nothing although 10 is stored. |
| TextbookTree.ManyKeys | experiments/b+tree_transactions/bplustree.py:55-180 | A tree of height h of at least 1 above its leaves stores at least 4 * 3^(h-1) different keys. |
| TextbookTree.CleftParent | experiments/b+tree_transactions/bplustree.py:163-180 | While a page and its new half are not yet connected, the parent search still finds the page above on the path, which exists whenever the page is not the root. |
| TextbookTree.CleftRoot | experiments/b+tree_transactions/bplustree.py:117-126 | A new root over the two halves of the old one is a valid tree one level higher with the same entries. |
| TextbookTree.CutLeaf | experiments/b+tree_transactions/bplustree.py:90-112 | Cutting a full leaf at the middle leaves the tree as it was but for the connection of the new half, and stores the same. |
| TextbookTree.CutChain | experiments/b+tree_transactions/bplustree.py:96-100 | Linking the new leaf behind the old one keeps the chain equal to the leaves in order. |
| TextbookFringe.FringeLeaves | experiments/b+tree_transactions/bplustree.py:90-112 | The leaves in order are exactly the leaf pages that can be reached, each once. |
| TextbookFringe.PathUnique | experiments/b+tree_transactions/bplustree.py:163-180 | A page of a tree has one path, so there is one parent to find. |
| PrattParser.ParseFlattened | experiments/parser_in_rust/parser.rs:331-439 | Parsing the tokens of a well-formed tree at any level below its own reaches the operator loop holding exactly that tree. |
| PrattParser.FlattenThenParse | experiments/parser_in_rust/parser.rs:331-439 | Parsing the flattening of any well-formed tree, followed by any token that is no operator, returns that tree and leaves the rest. |
| PrattParser.ParsedExpr | experiments/parser_in_rust/parser.rs:336-347 | Every successful parse is well formed, binds tighter than the level asked for, and flattens to exactly the tokens consumed. |
| PrattParser.ParsedPrefix | experiments/parser_in_rust/parser.rs:349-395 | The same for prefixes: values, signs, groups. |
| PrattParser.ParsedLoop | experiments/parser_in_rust/parser.rs:336-347 | The operator loop keeps what it holds well formed and left-associative and consumes exactly its tokens. |
| PrattParser.ParseExactly | experiments/parser_in_rust/parser.rs:331-439 | A parse returns a tree and a rest if and only if the tree is well formed, flattens to the tokens before the rest, and no operator follows: parsing is a bijection. |
| PrattParser.ThreeOperands | experiments/parser_in_rust/parser.rs:336-439 | For every two operators, `a op1 b op2 c` is read with the tighter one first and else with the left one: products above sums, above comparisons, above AND, above OR. |
| PrattParser.GroupFirst | experiments/parser_in_rust/parser.rs:374-378 | A group is read before the operator in front of it, whatever the two operators are. |
| PrattParser.SignFirst | experiments/parser_in_rust/parser.rs:362-372 | A sign takes the operand behind it, and no operator. |
| PrattParser.Parser.NextToken | experiments/parser_in_rust/parser.rs:718-724 | Takes the next token, or reports the end or the error of the tokenizer. |
| PrattParser.Parser.GetNextPrecedence | experiments/parser_in_rust/parser.rs:426-439 | Which of 40, 30, 20, 10 and 5 comes next says exactly whether the next operator is a product, a sum, a comparison, AND or OR; 0 for anything else; nothing is consumed. |
| PrattParser.Parser.ParseExpression | experiments/parser_in_rust/parser.rs:331-334 | Returns and leaves what the specification says at level 0, errors included. |
| PrattParser.Parser.ParseExpr | experiments/parser_in_rust/parser.rs:336-347 | Returns and leaves what the specification says at any level. |
| PrattParser.Parser.ParsePrefix | experiments/parser_in_rust/parser.rs:349-395 | Returns and leaves what the specification says of a prefix, with the same error for each bad token. |
| PrattParser.Parser.ParseInfix | experiments/parser_in_rust/parser.rs:397-424 | Joins the tree on the left, the operator and the tree parsed at its level. |
| PrattErrors.More | experiments/parser_in_rust/parser.rs:331-439 | What the parser has decided before the end of its input, a tree or an error, stays decided whatever follows. |
| PrattErrors.Completed | experiments/parser_in_rust/parser.rs:349-395 | Wherever the end is reported, some tokens complete the input to an expression. |
| PrattErrors.EofExactly | experiments/parser_in_rust/parser.rs:331-439 | The end of the input is reported if and only if the input is no expression yet and can be completed to one; after any other error nothing completes it. |
| PrattErrors.ErrorExactly | experiments/parser_in_rust/parser.rs:349-395 | Every other error is at the first token after which nothing completes the input, and says what is wrong there: no token, a number too large, something else than the closing parenthesis due, or no operand where one is due. |
| CppParser.ParsersAgree | src/parser/parser.cpp:200-279 | On the shared tokens the C++ parser succeeds exactly when the Rust one does with a tree without signs whose numbers fit; then it returns that tree with the grouping erased, and the same rest. |
| CppParser.AgreeExpr | src/parser/parser.cpp:233-245 | The same at every level, for expressions. |
| CppParser.AgreePrimary | src/parser/parser.cpp:248-279 | The same for primary expressions. |
| CppParser.AgreeLoop | src/parser/parser.cpp:236-244 | The same for the operator loop, started from trees that agree. |
| CppParser.GroupedErases | src/parser/parser.cpp:266-271 | Every tree, with groups put where precedence needs them, is well formed, and erasing the groups gives the tree back. |
| CppParser.GroupedParses | src/parser/parser.cpp:233-279 | The C++ parser reads back every tree from the tokens of its grouped form. |
| CppParser.CppThreeOperands | src/parser/parser.cpp:200-245 | For every two operators, `a op1 b op2 c` is read with the tighter one first and else with the left one: products above sums, above comparisons, above AND, above OR. |
| CppParser.CppGroup | src/parser/parser.cpp:266-271 | A group is read before the operator in front of it, and leaves no trace in the tree. |
| CppParser.Parser.Eat | src/parser/parser.cpp:226-230 | Consumes the token if it is the one expected, and throws and consumes nothing otherwise. |
| CppParser.Parser.CurrentPrecedence | src/parser/parser.cpp:200-215 | Which of 40, 30, 20, 10 and 5 it is says exactly whether the current operator is a product, a sum, a comparison, AND or OR; 0 for anything else and at the end. |
| CppParser.Parser.ParseExpr | src/parser/parser.cpp:233-245 | Returns and leaves what the specification says at any level, or throws the same. |
| CppParser.Parser.ParsePrimary | src/parser/parser.cpp:248-279 | Returns and leaves what the specification says of a primary expression. |
| Bytes.CompareKeys | src/storage/page_layout.cpp:69-99 | Negative exactly when at the first place where the keys differ the first one has the lesser byte or has ended, positive exactly when the second one does, zero exactly when they are equal. |
| Bytes.LessMeans | src/storage/page_layout.cpp:69-99 | The order used everywhere is that one: there is a place up to which the keys are the same, and there the first has ended and the second not, or has the lesser byte. |
| Bytes.Trichotomy | src/storage/page_layout.cpp:69-99 | Of two keys exactly one of less, equal, greater holds. |
| Bytes.Transitive | src/storage/page_layout.cpp:69-99 | The order of keys is transitive. |
| PageLists.LiveTotal | src/storage/page_layout.cpp:180-193 | Compaction gives back exactly the dead bytes counted. |
| PageLists.LeafRoomExact | src/storage/page_layout.cpp:116-119 | A record is refused exactly when the page with it behind the others, and one slot more in front of the directory, would have records reaching into the directory. |
| PageLists.InternalRoomExact | src/storage/page_layout.cpp:144-147 | The same for a separator. |
| PageLists.CompactsAway | src/storage/page_layout.cpp:202-243 | Compaction leaves nothing exactly when every record is deleted. |
| SlottedPages.OneMoreValid | src/storage/page_layout.cpp:113-166 | A record written into the free space and a slot opened for it keep records and directory disjoint and in bounds. |
| SlottedPages.OneMoreRecord | src/storage/page_layout.cpp:113-139 | The records of the page are then the old ones with the new one at its slot. |
| SlottedPages.OneMoreCell | src/storage/page_layout.cpp:141-166 | The same for the cells of an internal page. |
| SlottedPages.OpenedSlots | src/storage/page_layout.cpp:127-137 | Shifting the directory moves every later offset by one slot and changes no other byte. |
| SlottedPages.LeafReadBack | src/storage/page_layout.cpp:113-139 | What has been written of a record reads back as flag 0, its key and its row, and no other byte has changed. |
| SlottedPages.CellReadBack | src/storage/page_layout.cpp:141-166 | The same for a separator and its child. |
| SlottedPages.LeafLayout | src/storage/page_layout.cpp:113-139 | Byte by byte: flag, two little-endian 16-bit sizes, a gap of one byte, the key, the row. |
| SlottedPages.CellLayout | src/storage/page_layout.cpp:141-166 | Byte by byte: flag, a little-endian 16-bit size, a gap of one byte, the child in four little-endian bytes, the separator. |
| SlottedPages.LeafInsertedValid | src/storage/page_layout.cpp:113-139 | The byte image of an insertion with room is valid and holds the list with the record inserted. |
| SlottedPages.CellInsertedValid | src/storage/page_layout.cpp:141-166 | The same for internal pages. |
| SlottedPages.LeafAppendedValid | src/storage/page_layout.cpp:220-242 | Appending a live record to the rewritten page is valid and appends it to the list. |
| SlottedPages.FlaggedValid | src/storage/page_layout.cpp:174-178 | Setting a flag changes the flag of that record and nothing else. |
| SlottedPages.SlottedPage.InitLeaf | src/storage/page_layout.cpp:15-31 | A new leaf is valid and empty, without neighbours. |
| SlottedPages.SlottedPage.InitInternal | src/storage/page_layout.cpp:33-47 | A new internal page is valid and empty. |
| SlottedPages.SlottedPage.GetSlotOffset | src/storage/page_layout.cpp:49-58 | The offset stored for a slot. |
| SlottedPages.SlottedPage.OpenSlot | src/storage/page_layout.cpp:127-137 | The loop over the directory, in place, is the shift. |
| SlottedPages.SlottedPage.InsertLeaf | src/storage/page_layout.cpp:113-139 | On the bytes of a page: returns whether there is room, inserts the record at the slot of the list, and changes no byte when it fails. |
| SlottedPages.SlottedPage.InsertInternal | src/storage/page_layout.cpp:141-166 | The same for a separator with the child left of it. |
| SlottedPages.SlottedPage.SetDeleted | src/storage/page_layout.cpp:174-178 | Marks the record of that slot in the list, and only it. |
| SlottedPages.SlottedPage.ComputeDeadBytes | src/storage/page_layout.cpp:180-193 | The bytes of all records marked deleted. |
| SlottedPages.SlottedPage.CollectLive | src/storage/page_layout.cpp:202-219 | Copies out the live records, in slot order. |
| SlottedPages.SlottedPage.Compact | src/storage/page_layout.cpp:202-243 | Rewrites the page in place so that it holds exactly its live records in order, at the start of the page. |
| SlottedPages.SlottedPage.ReadRecord | src/storage/page_layout.cpp:245-259 | The record of the list at a slot. |
| SlottedPages.SlottedPage.ReadCell | src/storage/page_layout.cpp:291-310 | The cell of the list at a slot of an internal page. |
| SlottedPages.SlottedPage.BinarySearch | src/storage/page_layout.cpp:87-111 | On a leaf in key order: the first slot with a key not below the one looked for. |
| SlottedPages.SlottedPage.BinarySearchInternal | src/storage/page_layout.cpp:312-333 | On an internal page in key order: the first slot whose separator is not below the key. |
| ClusteredIndex.SlotFound | src/storage/page_layout.cpp:101-111 | There is only one first slot whose key is not below the one looked for: the slot binary search finds on a page is the one a descent takes. |
| ClusteredIndex.StepDown | src/storage/bplustree.cpp:49-68 | What lies under one child of an internal page, and what lies on the chain before and behind it. |
| ClusteredIndex.LeftBelow | src/storage/bplustree.cpp:49-68 | Everything left of the first separator that is not below the key is below the key, also when they are equal. |
| ClusteredIndex.RightNotBelow | src/storage/bplustree.cpp:49-68 | Nothing right of that separator is below the key. |
| ClusteredIndex.FirstInStretch | src/storage/bplustree.cpp:69-84 | If all before a leaf is below the key, the first slot in it not below the key is the first on the whole chain; if there is none, all of it is below. |
| ClusteredScan.GoDown | src/storage/bplustree.cpp:49-68 | Each step of a descent keeps: all of the chain before is below the key, nothing behind is. |
| ClusteredScan.SameRows | src/executor/seq_scan_cursor.cpp:10-53 | Leaf chain and page order hold the same multiset of live rows when every non-empty leaf page of the file is on the chain. |
| ClusteredEdits.LiveIsFirst | src/storage/bplustree.cpp:113-123 | Among equal keys only the first record can be live, so looking at the first place decides whether the key is there. |
| ClusteredEdits.LiveRowsList | src/storage/bplustree.cpp:125-152 | The live rows in chain order are the table: one row for each key, without its row id, in strictly ascending order of the keys. |
| ClusteredEdits.InsertedTable | src/storage/bplustree.cpp:285-288 | A live record inserted before tombstones of its key keeps the order and adds exactly its key to the table. |
| ClusteredEdits.MarkedTable | src/storage/bplustree.cpp:187-203 | Marking a record deleted removes exactly its key from the table. |
| ClusteredEdits.LiveTable | src/storage/bplustree.cpp:196-200 | Compacting a stretch of the chain keeps the table. |
| ClusteredEdits.GrownSeparated | src/storage/bplustree.cpp:261-288 | A new key in the leaf its descent ends at keeps every separator of the tree right. |
| ClusteredEdits.TreeGrown | src/storage/bplustree.cpp:261-288 | Inserting into that leaf is inserting into the whole chain where the key belongs, at any height. |
| ClusteredEdits.TreeShrunk | src/storage/bplustree.cpp:187-203 | A leaf that loses keys keeps the tree well formed at any height. |
| ClusteredLoad.SeparatorExact | src/storage/bplustree.cpp:354-372 | Attaching a new leaf to its parent yields the right children if and only if there is room and the leaf split was the first or the last child. |
| ClusteredLoad.MiddleLeafLost | src/storage/bplustree.cpp:354-372 | A root over leaves 2, 3 and 4 with room for the separator: splitting leaf 3 leaves the children 2, 4, 9, 4, so leaf 3 is lost and leaf 4 is there twice. |
| ClusteredLoad.SeparatorLast | src/storage/bplustree.cpp:354-372 | Behind all separators the new one is appended and the new leaf becomes the rightmost child. |
| ClusteredLoad.RevivedExact | src/storage/bplustree.cpp:318-327 | Moving the records from the middle on keeps the live records of a leaf if and only if none of them is deleted; all of them are live afterwards. |
| ClusteredLoad.TombstoneRevived | src/storage/bplustree.cpp:318-327 | A leaf with the keys 1 and 2, of which 2 is deleted: after the split both are live. |
| ClusteredLoad.SplitChain | src/storage/bplustree.cpp:340-352 | The chain grows by the new leaf at its end and holds the same records. |
| ClusteredLoad.SplitRoot | src/storage/bplustree.cpp:354-372 | The root over the grown chain has the first keys of its leaves as separators. |
| ClusteredLoad.RootOverIndex | src/storage/bplustree.cpp:261-283 | A root whose separators are the first keys of its leaves is a well-formed index. |
| ClusteredLoad.AskedFew | src/storage/bplustree.cpp:288-295 | An insertion behind all keys asks the root for at most twelve separators. |
| ClusteredLoad.HalvesFit | src/storage/bplustree.cpp:288-295 | If all records take at most half a leaf with their slots, repeated splitting always finds a leaf: it fits if and only if the separators it asks the root for fit together in what the root has left. |
| ClusteredLoad.OneTooMany | src/storage/bplustree.cpp:354-372 | The separators asked for do not fit together if and only if one of them finds too little left by those before it. |
| ClusteredLoad.RootLeafFits | src/storage/bplustree.cpp:354-375 | While the root is a leaf, all separators asked for fit into the root that is to come. |
| ClusteredLoad.LoadFits | src/storage/bplustree.cpp:288-295 | In a load the next insertion fits if and only if the root has room for all separators it asks for, and always while the root is a leaf. |
| ClusteredLoad.SplitLoaded | src/storage/bplustree.cpp:298-376 | A split of the last leaf keeps a loaded table loaded and its records the same. |
| ClusteredTree.BPlusTree.AllocatePage | src/storage/bplustree.cpp:23-35 | A page from the front of the free list, or else one more page of the file. |
| ClusteredTree.BPlusTree.Descend | src/storage/bplustree.cpp:49-68 | From the root of a tree of any height to a leaf: on the chain, all before it is below the key and nothing behind it is. |
| ClusteredTree.BPlusTree.Search | src/storage/bplustree.cpp:37-85 | On every well-formed tree of any height, the first place of the leaf chain whose key is not below the one looked for, or none exactly when there is no such record. |
| ClusteredTree.BPlusTree.FindLeftmost | src/storage/bplustree.cpp:87-111 | The start of the leaf chain, or none exactly for an empty table. |
| ClusteredTree.BPlusTree.KeyExists | src/storage/bplustree.cpp:113-123 | Exactly whether the table has the key. |
| ClusteredTree.BPlusTree.NextEntryFrom | src/storage/bplustree.cpp:125-152 | The first live record from a place on, with its key and its row without the row id, and what is left; done exactly when none is left. |
| ClusteredTree.BPlusTree.DrainIndex | src/storage/bplustree.cpp:125-152 | From the leftmost place, the live rows in key order, each once. |
| ClusteredTree.BPlusTree.NextRowFrom | src/executor/seq_scan_cursor.cpp:10-53 | The first live record from a place of the file on, and what is left. |
| ClusteredTree.BPlusTree.DrainFile | src/executor/seq_scan_cursor.cpp:10-53 | From page 2, the live rows in page order, each once. |
| ClusteredTree.BPlusTree.UnlinkEmptyLeaf | src/storage/bplustree.cpp:216-243 | Takes the leaf out of the chain from both sides, forgets the root if it was the leaf, and puts the page on the free list unless that is full. |
| ClusteredTree.BPlusTree.Purge | src/storage/bplustree.cpp:182-209 | Marks one record, compacts exactly at the threshold, and unlinks the leaf from both neighbours exactly when it was compacted and all its records are deleted; the pages afterwards are given outright, the table loses exactly that key and the removal loop goes on at the right place. |
| ClusteredTree.BPlusTree.MarkDead | src/storage/bplustree.cpp:187-200 | Marks one record, and compacts its leaf exactly when its dead bytes reach the threshold: the new leaf is given outright, the table loses exactly that key, and no leaf is left past the threshold. |
| ClusteredTree.BPlusTree.Remove | src/storage/bplustree.cpp:154-214 | On a tree of any height removes exactly the key from the table and counts 1 or 0, unless it empties a leaf that is not the root, which it reports. |
| ClusteredTree.BPlusTree.CreateRoot | src/storage/bplustree.cpp:249-259 | The first leaf of an empty table, from the free list if there is a page. |
| ClusteredTree.BPlusTree.CopyUpper | src/storage/bplustree.cpp:318-327 | The records from the middle on, copied to a new leaf in order, all flags cleared. |
| ClusteredTree.BPlusTree.MoveUpper | src/storage/bplustree.cpp:298-352 | For any leaf: the two halves hold its records, those of the upper one with all flags cleared, and they and the old successor are linked in both directions. |
| ClusteredTree.BPlusTree.Attach | src/storage/bplustree.cpp:354-375 | Enters the new leaf with its first key into the parent, or makes a root over both. |
| ClusteredTree.BPlusTree.SplitLeaf | src/storage/bplustree.cpp:298-376 | Splitting the last leaf of a loaded table keeps it sound, its records the same, and the new leaf at the end of the chain. |
| ClusteredTree.BPlusTree.Place | src/storage/bplustree.cpp:285-288 | Inserts at the slot found, exactly when the leaf has room. |
| ClusteredTree.BPlusTree.Insert | src/storage/bplustree.cpp:245-296 | Inserts a key that is not in the table: as into a finite map at any height when the leaf has room, and behind all keys of a loaded table through root creation and any number of splits; terminates. |
| ClusteredTree.BPlusTree.GuardedInsert | src/executor/executors.cpp:143-159 | Refuses exactly the keys in the table and inserts all others. |
| ClusteredTree.BPlusTree.ReplaceRow | src/executor/executors.cpp:300-317 | One row of an UPDATE on the tree: a new key that is taken is refused with nothing changed; else the table loses the old key and gains the new row, if there is room. |
| ClusteredTree.BPlusTree.Run | src/storage/bplustree.cpp:154-296 | Any history of guarded insertions and removals within one leaf acts as the same history on a finite map with the same answers, across tombstones of the same key, compaction, the root freed and created again; it needs at most one page more. |
| ClusteredTree.BPlusTree.Load | src/storage/bplustree.cpp:245-376 | Loading strictly ascending keys of any length, each record with its slot at most half a leaf, terminates with a sound tree whose leaf chain is the loaded sequence; it stops early only over a root that has not enough left for all separators the next insertion asks for. |
| ClusteredTree.ScansAgree | src/executor/seq_scan_cursor.cpp:10-53 | Draining by index and draining by file throw together, and otherwise return the same multiset of rows, also for a table without a root, whenever every leaf page with records is on the chain. |
| ClusteredTree.ScanBoth | src/executor/seq_scan_cursor.cpp:10-53 | On every table that insertions, removals within a leaf and loads have built, the index scan returns the row of every key once, without its row id, in strictly ascending order of the keys, and the file scan the same rows as often; both throw exactly when there is a row too short for a row id. |
| FreeList.Page0.Pop | include/storage/page/page.h:113-123 | Takes the front of the list by shifting the array, or reports that it is empty. |
| FreeList.Page0.Push | include/storage/page/page.h:124-130 | Appends a page unless the array is full, and then changes nothing. |
| BufferPool.PinMapSize | src/storage/bufferpool_manager.cpp:88-115 | There are never more pinned pages than frames, and as many exactly when every frame is pinned. |
| BufferPool.LatestSurvives | src/storage/bufferpool_manager.cpp:88-115 | With another frame free or unpinned, the page fetched last is not the next victim. |
| BufferPool.Manager.constructor | src/storage/bufferpool_manager.cpp:7-20 | A new pool shows exactly the files. |
| BufferPool.Manager.FindFrame | src/storage/bufferpool_manager.cpp:79-86 | A frame that holds the page, or -1 exactly when none does. |
| BufferPool.Manager.FlushFrame | src/storage/bufferpool_manager.cpp:117-122 | Writes a dirty frame back to its page and no other; what is seen does not change. |
| BufferPool.Manager.EvictAndUse | src/storage/bufferpool_manager.cpp:88-115 | Chooses a free frame, or else the unpinned one used longest ago, writes it back and empties it; -1 exactly when all are pinned, and then nothing changes. |
| BufferPool.Manager.Fetch | src/storage/bufferpool_manager.cpp:26-50 | Shows the bytes last written to the page, pinned once more; no other frame but the victim changes; fails exactly for pages 0 and 1 or when every frame is pinned and none holds the page. |
| BufferPool.Manager.LoadPage | src/storage/bufferpool_manager.cpp:40-49 | A page that is not cached comes from the file into the victim frame, pinned once. |
| BufferPool.Manager.Unpin | src/storage/bufferpool_manager.cpp:52-61 | Gives up one pin of the page, or throws exactly when there is none to give up; what is seen does not change. |
| BufferPool.Manager.Write | src/storage/bufferpool_manager.cpp:26-50 | A write through the pointer of a pinned page is a write to that page of the map and to no other. |
| BufferPool.Manager.MarkDirty | src/storage/bufferpool_manager.cpp:63-69 | Marks the frame of the page, or throws exactly when it is not cached. |
| BufferPool.Manager.FlushAll | src/storage/bufferpool_manager.cpp:71-77 | Afterwards the files hold what is seen, if every write was marked. |
| BufferPool.Manager.Extend | src/storage/bplustree.cpp:23-35 | A page added to the file is seen as it was added. |
| BufferPool.Manager.Step | src/storage/bufferpool_manager.cpp:26-77 | One fetch, write with its mark, unpin or flush: its answer, what is seen and what is pinned are those of plain pages and pin counts: a fetch shows the page and is refused only for pages 0 and 1 or when as many other pages as there are frames are pinned, a write or unpin is refused exactly when the page is not pinned; a pinned frame keeps its page. |
| BufferPool.Manager.Run | src/storage/bufferpool_manager.cpp:26-122 | Over any run of those operations every answer, refusals included, and what is seen and pinned at the end are those of the same run on plain pages and pin counts, whatever is evicted; after a flush the files hold what is seen, and a frame with more pins than the run gives back keeps its page. |
| BufferPool.Manager.ReadBehindFetch | src/storage/bplustree.cpp:338-364 | A page fetched and unpinned can still be read through its pointer after one more fetch, whenever two frames could be used at the start. |
| Catalog.RowIdsOnce | src/storage/catalog_manager.cpp:384-390 | In every run the row ids given out for one table are strictly increasing, so none is given out twice. |
| Catalog.CatalogManager.constructor | src/storage/catalog_manager.cpp:11-32 | A new cache shows exactly the files. |
| Catalog.CatalogManager.FindSlot | src/storage/catalog_manager.cpp:43-52 | The slot of the table, or -1 exactly when it is not cached. |
| Catalog.CatalogManager.EvictLruSlot | src/storage/catalog_manager.cpp:54-84 | Of full slots the one used longest ago is written back and freed; what is seen does not change. |
| Catalog.CatalogManager.FindOrAllocateSlot | src/storage/catalog_manager.cpp:86-115 | The slot of the table, or one free for it: a slot is given up only when all are used and it was used longest ago; the last resort at the end is never reached. |
| Catalog.CatalogManager.WriteSlotToDisk | src/storage/catalog_manager.cpp:123-133 | Writes exactly the dirty pages of the slot to the file of its table. |
| Catalog.CatalogManager.UnusedPool | src/storage/catalog_manager.cpp:146-165 | With a slot free there is always a pool entry no valid slot uses, so the last resort is never reached. |
| Catalog.CatalogManager.LoadTableMeta | src/storage/catalog_manager.cpp:135-180 | A table that is not cached is read into the cache; what is seen does not change, and the table looked at last before stays cached. |
| Catalog.CatalogManager.GetPages | src/storage/catalog_manager.cpp:182-218 | Points at what is seen of the table, caching it if need be; it is then the one looked at last, and the one before stays cached. |
| Catalog.CatalogManager.PutPage0 | src/storage/catalog_manager.cpp:220-226 | Changing page 0 and marking it dirty changes what is seen of that page only. |
| Catalog.CatalogManager.WriteSchema | src/storage/catalog_manager.cpp:271-304 | Changes page 1 of that table only. |
| Catalog.CatalogManager.FlushAll | src/storage/catalog_manager.cpp:306-317 | Afterwards the files hold what is seen and nothing is dirty. |
| Catalog.CatalogManager.ClearAll | src/storage/catalog_manager.cpp:319-342 | Writes all back and forgets it; the files hold what was seen. |
| Catalog.CatalogManager.EvictTable | src/storage/catalog_manager.cpp:370-382 | Writes one table back and forgets it. |
| Catalog.CatalogManager.GetAndIncrementRowId | src/storage/catalog_manager.cpp:384-390 | Gives out the next row id as it is seen, cached or not, and keeps the one after. |
| Catalog.CatalogManager.GetAndIncrementAutoIncrement | src/storage/catalog_manager.cpp:392-401 | The same for one of eight counters, and throws for any other. |
| Catalog.CatalogManager.Step | src/storage/catalog_manager.cpp:43-401 | One lookup, counter, schema or page 0 change, eviction, flush or clear answers and changes what is seen as on plain files; after a flush or clear the files hold it. |
| Catalog.CatalogManager.Run | src/storage/catalog_manager.cpp:43-401 | Over any run of lookups, counters, changes of either page, evictions, flushes and clears, every answer and what is seen at the end are those of the same run on a plain map of tables, and valid slots own distinct pool entries. |
| Transactions.TransactionManager.Enqueue | src/transaction/transaction_manager.cpp:23-30 | The caller hands over a function under a new id and waits. |
| Transactions.TransactionManager.TakeTask | src/transaction/transaction_manager.cpp:43-58 | The worker takes the task that was handed over first. |
| Transactions.TransactionManager.Finish | src/transaction/transaction_manager.cpp:61-64 | The function of the task ends, normally or by throwing. |
| Transactions.TransactionManager.PublishOutcome | src/transaction/transaction_manager.cpp:65-78 | The outcome and the id of that task are published. |
| Transactions.TransactionManager.WakeUp | src/transaction/transaction_manager.cpp:31-38 | The caller goes on exactly when its own function has ended and been published, and learns how that one ended. |
| Transactions.TransactionManager.Do | src/transaction/transaction_manager.cpp:23-80 | A step that can be taken does what its method does, and any other changes nothing; the state afterwards is given for each of the five. |
| Transactions.TransactionManager.Interleave | src/transaction/transaction_manager.cpp:23-80 | In every interleaving of one caller and the worker the functions called are those of the call steps taken, they end in the order of the calls with the outcomes of the run steps taken, and every return reports the outcome of its own function. |
| Server.LineTaken | server/main.cpp:222-247 | Taking a line out of the buffer keeps what has come in equal to the lines and the rest, and makes exactly one task of a line that is not blank. |
| Server.Answered | server/main.cpp:114-122 | Storing the response answers exactly the line outstanding. |
| Server.SentIsConsistent | server/main.cpp:250-262 | Sending in parts sends the responses in order, nothing twice and nothing left out. |
| Server.ReadsPromptly | server/main.cpp:211-247 | Input leaves a complete line lying exactly when it completes a blank line in front of another one. |
| Server.LineLeftLying | server/main.cpp:244-246 | A client that sends a blank line and a second line in one go: the second stays in the buffer though nothing is outstanding. |
| Server.ExitMeans | server/main.cpp:28-32 | The lines that end a connection are `exit;` and `quit;`, each letter in either case. |
| Server.ServerContext.AcceptClient | server/main.cpp:186-201 | A connection under a new id, idle and empty. |
| Server.ServerContext.ReceiveFrom | server/main.cpp:211-247 | What the arrival of data makes of a connection, in every case: nothing while a task is outstanding; closed when broken or at exit; the first line taken and handed over, or skipped when blank; more data kept. |
| Server.ServerContext.TransmitTo | server/main.cpp:249-287 | What sending makes of a connection: more of the response sent; when all of it is, the next line that is not blank is handed over, or the connection is idle with no complete line left, or closed at exit. |
| Server.ServerContext.HandleLine | server/main.cpp:229-242 | An exit closes the connection, any other line that is not blank becomes its one task. |
| Server.ServerContext.PushTask | server/main.cpp:236-242 | The task goes to the end of the queue and the connection waits for it. |
| Server.ServerContext.RemoveClosed | server/main.cpp:290-292 | Erases exactly the closed connections. |
| Server.ServerContext.PopTask | server/main.cpp:52-61 | The worker takes the task queued first. |
| Server.ServerContext.FindConnection | server/main.cpp:66-72 | The connection of the task is there when the worker looks it up. |
| Server.ServerContext.StoreResponse | server/main.cpp:114-122 | The connection is still there and still waits, gets this response for its line, and nothing else changes. |
| Server.ServerContext.TaskOf | server/main.cpp:66-122 | While the worker has a task its connection exists and waits for just that task. |
| Server.ServerContext.WaitsForOne | server/main.cpp:49-293 | A connection waits for a result exactly when there is one task for it in the queue and at the worker together, and never more. |
| Server.ServerContext.AnsweredInOrder | server/main.cpp:49-293 | The lines that make a task have been answered one by one in order, but for the one outstanding, and what has been sent is those responses in that order. |
| Server.ServerContext.Do | server/main.cpp:49-293 | Every step does what its method does and any step that cannot be taken changes nothing, given for each of the eight; whatever step either thread takes, a connection that waits is neither erased nor changed but by its own response; a complete line comes to lie about exactly at the steps described. |
| Server.ServerContext.Interleave | server/main.cpp:49-293 | In every interleaving of the I/O loop and the worker, the pointer the worker uses without a lock stays valid, and no complete line lies about while no input begins with a blank line. |
| Update.NewAssigned | src/executor/executors.cpp:261-277 | The assignments are simultaneous: each column gets the last of all assignments to it, evaluated on the old tuple, or keeps its value. |
| Update.TakenIsBlocked | src/executor/executors.cpp:296-307 | Finding the new key in the table midway is the same as a condition on the old table and the rows alone. |
| Update.ReplacedOne | src/executor/executors.cpp:309-317 | Deleting one row and inserting its image leads from the image of i rows to that of i + 1. |
| Update.ImageOf | src/executor/executors.cpp:237-321 | With rows of the table collected, the table after all replacements is its image: every tuple collected, with the assignments applied, lies under the key it then has, every other one is as it was, there is nothing else, and no row is lost. |
| Update.BlockedMeans | src/executor/executors.cpp:296-307 | A row runs into another key exactly when its new key is not its own and is in the table without an earlier row having left it, or has been given to an earlier row. |
| Update.ExchangeRefused | src/executor/executors.cpp:300-305 | Exchanging the keys of two rows has a fine image, but the first row runs into the key of the second. |
| Update.ExchangeByUpdate | src/executor/executors.cpp:300-305 | The statement id := 3 - id on a table with the rows 1 and 2 is such an exchange, and is refused at the first row with the table unchanged. |
| Update.UpdateRows | src/executor/executors.cpp:237-321 | UPDATE over a keyed table and rows of it completes if and only if every row keeps its key or gets one that is free at that time, said of the old table and the rows; then the table is its image under the assignments, every row again under its key; otherwise it is refused at the first row that does not. |
| Update.UpdateExecutor.FindColumn | src/executor/executors.cpp:264-270 | The position of a column, or -1 exactly when there is none. |
| Update.UpdateExecutor.Apply | src/executor/executors.cpp:261-277 | For every column: what the last assignment that names it gives on the old tuple, or its old value if none does; unknown columns are passed over. |
| Update.UpdateExecutor.Update | src/executor/executors.cpp:237-321 | Row-by-row deletion and insertion over the collected rows completes if and only if no row runs into another key; then the table is the image of the old one under the assignments, with as many rows, keys unique and new row ids; otherwise it throws at the first such row, the rows before it already replaced. |

## Left out

- experiments/cursor/page.rs, the pager and statement.rs are not part of this model: a page is its cells and its right child, the pager a map that hands out fresh pages other than 0, and the underflow test is any test.
- A cell of the disk B-tree is its place under the comparator and its bytes; the overflow chains of large cells are modelled apart from the tree.
- Distribution.Distribute: for cells of different sizes only the count of cells is stated; the divider looked at is not moved on between iterations, so the room of three or more pages is not claimed, nor that every page is half full (the repository's own split test ends with a leaf of one key).
- DiskTree.BTree.Run: cells have one size and a page holds two of them; 16-bit slot numbers and I/O errors are not modelled.
- The page counts the repository's page cache may evict between two accesses of the disk B-tree.
- The `prev` links, the file and the two-frame pool of the textbook tree; its root is not saved with the file.
- PrattParser.Parser.ParseExpression: tokens are given as a sequence; positions, white space and the grammar of statements are not modelled, and a number is a natural number with a greatest value.
- CppParser.ParsersAgree: over the tokens both lexers have; `!=`, TRUE and FALSE, which the C++ lexer reads differently, are not among them.
- SlottedPages.SlottedPage.InsertLeaf: header, key and row together are less than 2^16 bytes; above, the 16-bit total of the program wraps around.
- SlottedPages.SlottedPage.InsertInternal: header and key together are less than 2^16 bytes, for the same reason.
- Overwriting a child pointer of an internal page is modelled on the list of its cells, not on its bytes; taking a child out of an internal page is never reached, because the parent id of a page is always 0.
- Page and record sizes follow the layout of the structures (a header of 24 bytes, a record header of 4), not the comments beside them.
- ClusteredTree.BPlusTree.Load: the file is not within 16384 pages of its limit.
- ClusteredTree.BPlusTree.GuardedInsert: a new key whose leaf is full is left to Insert.
- ClusteredTree.BPlusTree.Insert: splits are modelled where the split leaf ends the chain; in the middle of a parent the program attaches the wrong child, and SeparatorExact states exactly when it is the right one.
- ClusteredTree.BPlusTree.SplitLeaf: the last leaf of a loaded table, which has no tombstones (RevivedExact states what a split does to them); the lower half keeps its used space, as in the program. Splitting internal pages is empty in the program.
- ClusteredTree.BPlusTree.Remove: claims nothing when it empties a leaf that is not the root, whose parent still points at it; several live records of one key, which only unguarded insertions make, are not modelled.
- ClusteredTree.BPlusTree.Run: the key check comes before every insertion, and the history stops at the first insertion that finds the leaf full.
- The limit of 2^32 - 1 pages of a file is a precondition.
- BufferPool.Manager.Fetch: the page is in the file (short reads are not modelled) and the 64-bit clock has not run out; table id 0 marks a free frame and is no table.
- BufferPool.Manager.LoadPage: the same.
- BufferPool.Manager.Unpin: while a write has not been marked dirty its last pin stays, as every caller does.
- Catalog.CatalogManager.LoadTableMeta: of a table that is cached already it would read old pages over new ones; only its use for a table that is not cached is modelled. Several databases share slots by table name and are not modelled.
- Catalog.CatalogManager.PutPage0: stands for any write through the pointer to page 0 followed by the call that marks it.
- Catalog.CatalogManager.Run: 64-bit clocks and counters do not run out, and the files of the tables exist.
- Server.ServerContext.TransmitTo: no more is sent than is left; sockets, the polling of them, shutdown and the databases of the connections are not modelled, and a response is any text.
- Server.ServerContext.Interleave: makes no claim that every step is eventually taken.
- Transactions.TransactionManager.Interleave: one caller, as in the server; ids are taken outside the lock, so two callers could queue out of order.
- Update.UpdateExecutor.Update: the table is a map from keys to rows; ClusteredTree.BPlusTree.ReplaceRow states one of its steps on the index, for a table of one leaf. Collecting the rows, serialising them and evaluating expressions are given, and evaluation does not throw.
- Filters, plans, statements other than UPDATE and guarded INSERT, the lexers, tuple and schema formats, catalog listings, the client.
