# Armored Core inventory tracker — verified model of the decoder

`tracker.py` reads the owned-parts inventory of an Armored Core game out of the
running game's RAM. It then shows, per part category, the catalog parts the
player is missing (or all parts, marked owned/missing) in a tree view. This
project models the non-UI core of that program in Dafny and proves what it
computes:

- **Categories** (`categories.dfy`): the fourteen part categories in
  `TOTAL_PART_COUNTS` declaration order. The table of per-category totals is
  kept as data. `PART_IDX` is the ordinal table built from the declaration
  order.
- **Layout** (`layout.dfy`): the memory layout as functions of a RAM image, a
  byte sequence indexed by absolute address:
  - the little-endian 32-bit pointer at `0x9044c30`;
  - the table start, which is that pointer plus `0x3AA4`;
  - one `0x204`-byte slot per category ordinal;
  - the count byte at slot offset `0x200`;
  - one 4-byte word per owned part, of which only the first byte is kept.

  It also states the exact sequence of reads `owned_parts` performs.
- **Inventory** (`inventory.dfy`): `ArmoredCoreInventory` as a class over a
  `Ram` object with one seek/read cursor and a ghost record of every read.
  `inventory_start` and `owned_parts` are methods that seek and read step by
  step. They are proved to return the Layout values, to leave the cursor at
  the end of the last identifier word, and to perform exactly the reads Layout
  lists.
- **Catalog** (`catalog.dfy`): the part catalog `PARTS`, given per category as
  a sequence of placeholder strings and part records. It also holds
  `get_part_names` and `get_part_details`, including the errors Python raises
  for an index past the catalog end (IndexError) and for an index naming a
  placeholder (TypeError).
- **Selection** (`selection.dfy`): the rule `Tracker.load_parts` applies when
  it fills the tree:
  - placeholders are skipped;
  - a part is marked ✅ iff its index is owned, else ❌;
  - owned parts are hidden unless "Show all" is set;
  - row tags alternate starting with `odd`;
  - a category whose catalog is empty gets no node.

  `SelectRows` (one category) and `LoadParts` (all categories, reading the RAM
  through the inventory) are the loops. They are proved equal to the
  specification functions `CategoryRows` and `Tree`.

Facts about the code that the model keeps:
- The count byte sits at slot offset `0x200`.
- The count is used as read, with no upper bound checked.
- Every `inventory_start` access reads the pointer again, so each
  `owned_parts` call reads it twice. Nothing caches or invalidates the table
  start. The 'reload' button (`tracker.py:110`) just runs `load_parts` again,
  which the model covers as `Selection.LoadParts`.
- Only the first byte of each 4-byte identifier word is kept.

## Model

| member | source | states |
|---|---|---|
| Categories.PartIdx | tracker.py:24 | every category's ordinal is below 14 (its exact value is given by PartIdxIsDeclarationPosition) |
| Categories.PartIdxIsDeclarationPosition | tracker.py:8-24 | every category occurs among the declared keys, and PART_IDX maps it to the position of its first occurrence there |
| Categories.PartIdxBijective | tracker.py:24 | PART_IDX is injective, and every ordinal 0..13 is the PART_IDX of some category |
| Categories.PartIdxOfDeclared | tracker.py:24 | the category declared at position i has ordinal i |
| Categories.DeclaredDistinct | tracker.py:8-23 | no category is declared twice |
| Layout.DecodeU32 | tracker.py:37 | the unsigned value of the 4 bytes read as a little-endian word lies below 2^32 (DecodeEncode and EncodeDecode pin it down as the inverse of the encoding) |
| Layout.DecodeEncode | tracker.py:37 | decoding the 4-byte little-endian encoding of a 32-bit value gives the value back |
| Layout.EncodeDecode | tracker.py:37 | encoding the value decoded from any 4 bytes gives those 4 bytes back |
| Layout.InventoryStart | tracker.py:35-37 | the table start is the unsigned 32-bit pointer value plus 0x3AA4, so it lies in [0x3AA4, 2^32 + 0x3AA4) |
| Layout.InventoryStartDependsOnPointer | tracker.py:35-37 | two images that agree on the four pointer bytes give the same table start |
| Layout.InventoryStartOfPointer | tracker.py:35-37 | the table start equals a given in-range value iff the pointer bytes are the little-endian encoding of that value minus 0x3AA4 |
| Layout.OwnedParts | tracker.py:39-48 | the number of identifiers equals the count byte at start + ordinal*0x204 + 0x200 (so < 256), and identifier i is the first byte of the word at start + ordinal*0x204 + 4*i (so < 256) |
| Layout.OwnedPartsEmpty | tracker.py:43-45 | owned_parts is empty iff the count byte is 0 |
| Layout.LegsExample | tracker.py:39-48 | with the table at base, LEGS' count byte 2 and words beginning with 7 and 15, owned_parts('LEGS') is [7, 15] |
| Layout.SlotsDisjoint | tracker.py:42 | slots of different categories do not overlap, so their count bytes are at different addresses |
| Layout.WordsInsideSlot | tracker.py:44-46 | with a count of at most 128, every identifier word lies in the category's own slot, before the count byte |
| Layout.OverlongCountLeavesSlot | tracker.py:43-46 | with no bound on the count, word 128 is the count byte itself and word 129 starts the next category's slot |
| Layout.OwnedPartsReadsCount | tracker.py:42-46 | owned_parts reads the pointer and then the count byte before any identifier, then exactly count 4-byte words at consecutive word addresses; with count 0 it reads no identifier |
| Layout.OwnedPartsReadsInSlot | tracker.py:44-46 | with a count of at most 128, every identifier read stays inside the category's slot, before the count byte |
| Inventory.Ram.Seek | tracker.py:36-44 | a seek moves the cursor to the given offset and reads nothing |
| Inventory.Ram.Read | tracker.py:37 | a read returns the n bytes at the cursor, advances the cursor by n and records the read |
| Inventory.ArmoredCoreInventory.InventoryStart | tracker.py:34-37 | the method seeks to 0x9044c30, reads one word and returns the Layout table start, with exactly that one read recorded |
| Inventory.ArmoredCoreInventory.OwnedParts | tracker.py:39-48 | the method returns Layout.OwnedParts, leaves the cursor at Layout.CursorAfter (slot start + 4 * count) and performs exactly the reads in Layout.OwnedPartsReads |
| Inventory.ArmoredCoreInventory.ReadIdentifiers | tracker.py:45-46 | reading count words from the slot start returns the first byte of each word, leaves the cursor at slot + 4 * count and records exactly those count 4-byte reads |
| Catalog.Lookup | tracker.py:51-56 | the lookup succeeds iff every index names a part record; the result then has one field per index, in order; otherwise the error is that of the first bad index (past the end, or a placeholder) |
| Catalog.PartNames | tracker.py:51-52 | get_part_names succeeds iff every index names a part record, and then element k is the NAME of PARTS[type][parts[k]] |
| Catalog.PartDetails | tracker.py:55-56 | get_part_details succeeds iff every index names a part record, and then element k is the UNLOCK of PARTS[type][parts[k]] |
| Catalog.NamesAndDetailsAgree | tracker.py:51-56 | names and unlock texts of the same parts succeed or fail together with the same error, and position k of both describes the record parts[k] |
| Catalog.LookupErrorIndependentOfField | tracker.py:51-56 | a failing lookup reports the same error whichever field it asks for |
| Selection.ShownBelow | tracker.py:129-136 | every listed index is below the bound, names a part record, and is either not owned or "Show all" is set |
| Selection.ShownBelowComplete | tracker.py:129-136 | every such index below the bound is listed, and the list is strictly increasing (catalog order) |
| Selection.CategoryRows | tracker.py:129-140 | a category gets at most one row per catalog entry, and without "Show all" every row is marked ❌ |
| Selection.SelectRows | tracker.py:126-140 | the inner loop builds exactly CategoryRows |
| Selection.CategoryRowsRule | tracker.py:129-140 | row k describes the k-th shown index in catalog order; an index is shown iff it is a part record and "Show all" is set or it is not owned; the marker is ✅ iff the index is owned |
| Selection.TagsAlternate | tracker.py:127-140 | the first row is tagged odd, and consecutive rows have different tags |
| Selection.ShowAllAndMissing | tracker.py:133-136 | with "Show all" every part record is listed; without it, exactly the unowned records are listed and none is marked owned |
| Selection.RowsTable | tracker.py:128-140 | the row table holds, at each category's ordinal, that category's rows for its owned parts decoded from the RAM |
| Selection.NodesBelowCategories | tracker.py:125-142 | each node for the first n declared categories belongs to one of them |
| Selection.NodesBelowNodes | tracker.py:125-142 | each node has a non-empty catalog and holds its category's rows |
| Selection.NodesBelowOrdered | tracker.py:125 | the nodes are in declaration order |
| Selection.NodesBelowCover | tracker.py:125-142 | each of the first n categories with a non-empty catalog has a node |
| Selection.NodesShape | tracker.py:125-142 | over any row table: a node exists for a category iff its catalog is non-empty, the nodes are in declaration order, and the node holds the category's rows |
| Selection.Tree | tracker.py:125-142 | the tree has at most 14 nodes, in declaration order |
| Selection.TreeShape | tracker.py:123-142 | the tree has a node for a category iff its catalog is non-empty, in declaration order, and that node holds the category's rows for the owned parts decoded from the RAM |
| Selection.LoadCategory | tracker.py:128-140 | one pass of the outer loop returns CategoryRows of the decoded owned parts, records exactly that category's owned_parts reads and leaves the cursor at Layout.CursorAfter for it |
| Selection.LoadParts | tracker.py:123-142 | the outer loop builds exactly Tree, and calls owned_parts once per declared category in order (the reads are those of every category, in declaration order), leaving the cursor after the last identifier word of OPTIONAL, the last category |

## Left out

- The Tk user interface is left out as presentation: `CollapsableFrame`, the widget construction in `Tracker`, `set_text`, `set_item`, `run` and `mainloop`. `load_parts` is modelled as the tree it produces. Deleting the previous tree's children is modelled by building a fresh tree.
- `PspRamIO` is a foreign reader of another process's memory. It is modelled as a constant byte image with one cursor. Read failures are not modelled: every read is required to lie inside the image. The game changing its RAM between two reads is not modelled either.
- Loading `sl_parts.json` is not modelled. `PARTS` is given as a total function from category to catalog, so a category missing from the file (a KeyError) is not modelled. A catalog entry other than a string or a record is not modelled either.
- `unpack("I")` uses the host's byte order. The model fixes it to little-endian.
- The values of `TOTAL_PART_COUNTS` are kept as data (`Categories.TotalPartCount`). The code uses only the dictionary's key order, so no contract mentions them.
- Catalog indices are the identifiers `owned_parts` returns, in 0..255. Python's negative list indices are therefore never reached and are not modelled.
