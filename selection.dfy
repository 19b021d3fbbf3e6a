/** The display rule of Tracker.load_parts, without the Tk widgets: which
    catalog entries become rows, how each row is marked and tagged, and which
    categories get a node. CategoryRows and Tree specify the result;
    SelectRows and LoadParts are the loops that build it. */
module Selection {
  import opened Categories
  import opened Layout
  import opened Catalog
  import opened Inventory

  /** Row background tags; the first row of a category is Odd. */
  datatype Tag = Odd | Even

  const OWNED_MARK: string := "✅"
  const MISSING_MARK: string := "❌"

  /** One part row: its text is marker + name, its one child holds the unlock text. */
  datatype Row = Row(marker: string, name: string, unlock: string, tag: Tag)

  /** One category node of the tree and its part rows. */
  datatype CategoryNode = CategoryNode(category: Category, rows: seq<Row>)

  // ---------------------------------------------------------------------------
  // One category

  /** Whether catalog index i becomes a row: a part record that is missing,
      or any part record when every part is shown. */
  predicate Shown(entries: seq<CatalogEntry>, owned: seq<nat>, showAll: bool, i: nat)
  {
    i < |entries| && entries[i].Entry? && (showAll || i !in owned)
  }

  /** The shown indices below n, in increasing order (ShownBelowComplete). */
  function ShownBelow(entries: seq<CatalogEntry>, owned: seq<nat>, showAll: bool, n: nat): (idx: seq<nat>)
    requires n <= |entries|
    ensures |idx| <= n
    ensures forall k :: 0 <= k < |idx| ==> idx[k] < n && Shown(entries, owned, showAll, idx[k])
  {
    if n == 0 then []
    else ShownBelow(entries, owned, showAll, n - 1) + (if Shown(entries, owned, showAll, n - 1) then [n - 1] else [])
  }

  /** ShownBelow lists every shown index below n, each once, in increasing order. */
  lemma {:induction false} ShownBelowComplete(entries: seq<CatalogEntry>, owned: seq<nat>, showAll: bool, n: nat)
    requires n <= |entries|
    ensures var idx := ShownBelow(entries, owned, showAll, n);
      && (forall i: nat :: i < n && Shown(entries, owned, showAll, i) ==> i in idx)
      && (forall a, b :: 0 <= a < b < |idx| ==> idx[a] < idx[b])
  {
    if n > 0 {
      ShownBelowComplete(entries, owned, showAll, n - 1);
    }
  }

  function TagAt(k: nat): Tag
  {
    if k % 2 == 0 then Odd else Even
  }

  /** Consecutive positions have different tags. */
  lemma TagAtNext(k: nat)
    ensures TagAt(k + 1) == if TagAt(k) == Odd then Even else Odd
  {
  }

  function MarkerFor(owned: bool): string
  {
    if owned then OWNED_MARK else MISSING_MARK
  }

  predicate AllRecords(entries: seq<CatalogEntry>, idx: seq<nat>)
  {
    forall k :: 0 <= k < |idx| ==> idx[k] < |entries| && entries[idx[k]].Entry?
  }

  /** The rows for the catalog indices idx, the k-th tagged by its position. */
  function RowsFor(entries: seq<CatalogEntry>, owned: seq<nat>, idx: seq<nat>): seq<Row>
    requires AllRecords(entries, idx)
  {
    seq(|idx|, k requires 0 <= k < |idx| =>
      Row(MarkerFor(idx[k] in owned), entries[idx[k]].name, entries[idx[k]].unlock, TagAt(k)))
  }

  /** Appending one shown index appends its row, tagged by its position. */
  lemma RowsForAppend(entries: seq<CatalogEntry>, owned: seq<nat>, idx: seq<nat>, i: nat)
    requires AllRecords(entries, idx) && i < |entries| && entries[i].Entry?
    ensures AllRecords(entries, idx + [i])
    ensures RowsFor(entries, owned, idx + [i])
         == RowsFor(entries, owned, idx) + [Row(MarkerFor(i in owned), entries[i].name, entries[i].unlock, TagAt(|idx|))]
  {
    var a := RowsFor(entries, owned, idx + [i]);
    var b := RowsFor(entries, owned, idx) + [Row(MarkerFor(i in owned), entries[i].name, entries[i].unlock, TagAt(|idx|))];
    assert |a| == |b|;
    forall k | 0 <= k < |a| ensures a[k] == b[k] {
      if k < |idx| {
        assert (idx + [i])[k] == idx[k];
      }
    }
  }

  /** The rows load_parts inserts under one category. */
  function CategoryRows(entries: seq<CatalogEntry>, owned: seq<nat>, showAll: bool): (rows: seq<Row>)
    ensures |rows| <= |entries|
    ensures !showAll ==> forall k :: 0 <= k < |rows| ==> rows[k].marker == MISSING_MARK
  {
    RowsFor(entries, owned, ShownBelow(entries, owned, showAll, |entries|))
  }

  /** The inner loop of load_parts: skips placeholders, marks owned parts,
      hides them unless showAll, and alternates the tag starting with odd. */
  method SelectRows(entries: seq<CatalogEntry>, owned: seq<nat>, showAll: bool) returns (rows: seq<Row>)
    ensures rows == CategoryRows(entries, owned, showAll)
  {
    var even := false;
    rows := [];
    ghost var idx: seq<nat> := [];
    for i := 0 to |entries|
      invariant idx == ShownBelow(entries, owned, showAll, i)
      invariant rows == RowsFor(entries, owned, idx)
      invariant TagAt(|rows|) == if even then Even else Odd
    {
      var part := entries[i];
      if part.Placeholder? {
        continue;
      }
      var isOwned := i in owned;
      var marker := if isOwned then OWNED_MARK else MISSING_MARK;
      if !showAll && isOwned {
        continue;
      }
      RowsForAppend(entries, owned, idx, i);
      TagAtNext(|rows|);
      rows := rows + [Row(marker, part.name, part.unlock, if even then Even else Odd)];
      idx := idx + [i];
      even := !even;
    }
  }

  /** The selection rule: row k describes the k-th shown catalog index, in
      catalog order; an index is shown iff it is a part record and either every
      part is shown or it is not owned; the marker is the owned mark iff the
      index is owned. */
  lemma {:induction false} CategoryRowsRule(entries: seq<CatalogEntry>, owned: seq<nat>, showAll: bool)
    ensures var idx := ShownBelow(entries, owned, showAll, |entries|);
      var rows := CategoryRows(entries, owned, showAll);
      && |rows| == |idx|
      && (forall a, b :: 0 <= a < b < |idx| ==> idx[a] < idx[b])
      && (forall i: nat :: i in idx <==> i < |entries| && entries[i].Entry? && (showAll || i !in owned))
      && (forall k :: 0 <= k < |rows| ==>
            && entries[idx[k]] == Entry(rows[k].name, rows[k].unlock)
            && (rows[k].marker == OWNED_MARK <==> idx[k] in owned))
  {
    ShownBelowComplete(entries, owned, showAll, |entries|);
  }

  /** Tags alternate, starting with odd. */
  lemma TagsAlternate(entries: seq<CatalogEntry>, owned: seq<nat>, showAll: bool)
    ensures var rows := CategoryRows(entries, owned, showAll);
      && (|rows| > 0 ==> rows[0].tag == Odd)
      && (forall k :: 0 <= k < |rows| - 1 ==> rows[k + 1].tag != rows[k].tag)
  {
  }

  /** Without showAll, the rows are exactly the missing parts and none is
      marked owned; with it, every part record is listed and the owned mark
      falls exactly on the owned ones. */
  lemma {:induction false} ShowAllAndMissing(entries: seq<CatalogEntry>, owned: seq<nat>, i: nat)
    requires i < |entries| && entries[i].Entry?
    ensures i in ShownBelow(entries, owned, true, |entries|)
    ensures i in ShownBelow(entries, owned, false, |entries|) <==> i !in owned
    ensures forall k :: 0 <= k < |CategoryRows(entries, owned, false)| ==>
              CategoryRows(entries, owned, false)[k].marker == MISSING_MARK
  {
    ShownBelowComplete(entries, owned, true, |entries|);
    ShownBelowComplete(entries, owned, false, |entries|);
    var idx := ShownBelow(entries, owned, false, |entries|);
    var rows := CategoryRows(entries, owned, false);
    forall k | 0 <= k < |rows|
      ensures rows[k].marker == MISSING_MARK
    {
      assert idx[k] in idx;
    }
  }

  // ---------------------------------------------------------------------------
  // The whole tree

  predicate AllSlotsReadable(mem: seq<byte>)
  {
    forall t: Category :: SlotReadable(mem, t)
  }

  /** The nodes are in the declaration order of their categories. */
  predicate InDeclarationOrder(nodes: seq<CategoryNode>)
  {
    forall a, b :: 0 <= a < b < |nodes| ==> PartIdx(nodes[a].category) < PartIdx(nodes[b].category)
  }

  /** Some node belongs to category t. */
  predicate HasNode(nodes: seq<CategoryNode>, t: Category)
  {
    exists k :: 0 <= k < |nodes| && nodes[k].category == t
  }

  /** The rows of every category by ordinal: what load_parts selects from the
      category's catalog and its owned parts decoded from the RAM. */
  function RowsTable(mem: seq<byte>, catalog: Parts, showAll: bool): (table: seq<seq<Row>>)
    requires AllSlotsReadable(mem)
    ensures |table| == CATEGORY_COUNT
    ensures forall t: Category ::
      table[PartIdx(t)] == CategoryRows(catalog(t), OwnedParts(mem, t), showAll)
  {
    seq(CATEGORY_COUNT, i requires 0 <= i < CATEGORY_COUNT =>
      CategoryRows(catalog(Declared[i]), OwnedParts(mem, Declared[i]), showAll))
  }

  /** The nodes load_parts leaves for the first n declared categories, given
      the rows of every category by ordinal. */
  function NodesBelow(catalog: Parts, rows: seq<seq<Row>>, n: nat): (nodes: seq<CategoryNode>)
    requires |rows| == CATEGORY_COUNT && n <= CATEGORY_COUNT
    ensures |nodes| <= n
  {
    if n == 0 then []
    else
      var t := Declared[n - 1];
      NodesBelow(catalog, rows, n - 1)
      + if |catalog(t)| == 0 then [] else [CategoryNode(t, rows[n - 1])]
  }

  /** The tree load_parts builds from the RAM image. */
  function Tree(mem: seq<byte>, catalog: Parts, showAll: bool): (tree: seq<CategoryNode>)
    requires AllSlotsReadable(mem)
    ensures |tree| <= CATEGORY_COUNT
    ensures InDeclarationOrder(tree)
  {
    NodesBelowOrdered(catalog, RowsTable(mem, catalog, showAll), CATEGORY_COUNT);
    NodesBelow(catalog, RowsTable(mem, catalog, showAll), CATEGORY_COUNT)
  }

  /** The reads owned_parts makes for the first n declared categories. */
  function ReadsBelow(mem: seq<byte>, n: nat): seq<Access>
    requires AllSlotsReadable(mem) && n <= CATEGORY_COUNT
  {
    if n == 0 then [] else ReadsBelow(mem, n - 1) + OwnedPartsReads(mem, Declared[n - 1])
  }

  lemma ReadsBelowStep(earlier: seq<Access>, mem: seq<byte>, c: nat)
    requires AllSlotsReadable(mem) && c < CATEGORY_COUNT
    ensures earlier + ReadsBelow(mem, c) + OwnedPartsReads(mem, Declared[c]) == earlier + ReadsBelow(mem, c + 1)
  {
  }

  /** NodesBelow for n keeps the nodes for n - 1 and adds the node of the
      n-th category exactly when its catalog is non-empty. */
  lemma NodesBelowStep(catalog: Parts, rows: seq<seq<Row>>, n: nat)
    requires |rows| == CATEGORY_COUNT && 0 < n <= CATEGORY_COUNT
    ensures var prev := NodesBelow(catalog, rows, n - 1);
      var tree := NodesBelow(catalog, rows, n);
      var t := Declared[n - 1];
      && |tree| == |prev| + (if |catalog(t)| == 0 then 0 else 1)
      && (forall k :: 0 <= k < |prev| ==> tree[k] == prev[k])
      && (|catalog(t)| > 0 ==> tree[|prev|] == CategoryNode(t, rows[n - 1]))
  {
  }

  /** Each of the first n nodes belongs to one of the first n categories. */
  lemma {:induction false} NodesBelowCategories(catalog: Parts, rows: seq<seq<Row>>, n: nat)
    requires |rows| == CATEGORY_COUNT && n <= CATEGORY_COUNT
    ensures var tree := NodesBelow(catalog, rows, n);
      forall k :: 0 <= k < |tree| ==> PartIdx(tree[k].category) < n
  {
    if n > 0 {
      NodesBelowCategories(catalog, rows, n - 1);
      PartIdxOfDeclared(n - 1);
      NodesBelowStep(catalog, rows, n);
      var prev := NodesBelow(catalog, rows, n - 1);
      var tree := NodesBelow(catalog, rows, n);
      forall k | 0 <= k < |tree|
        ensures PartIdx(tree[k].category) < n
      {
        if k < |prev| {
          assert tree[k] == prev[k];
        }
      }
    }
  }

  /** Each of the first n nodes has a non-empty catalog and holds its
      category's rows. */
  lemma {:induction false} NodesBelowNodes(catalog: Parts, rows: seq<seq<Row>>, n: nat)
    requires |rows| == CATEGORY_COUNT && n <= CATEGORY_COUNT
    ensures var tree := NodesBelow(catalog, rows, n);
      forall k :: 0 <= k < |tree| ==>
        && |catalog(tree[k].category)| > 0
        && tree[k].rows == rows[PartIdx(tree[k].category)]
  {
    if n > 0 {
      NodesBelowNodes(catalog, rows, n - 1);
      PartIdxOfDeclared(n - 1);
      NodesBelowStep(catalog, rows, n);
      var prev := NodesBelow(catalog, rows, n - 1);
      var tree := NodesBelow(catalog, rows, n);
      forall k | 0 <= k < |tree|
        ensures |catalog(tree[k].category)| > 0
        ensures tree[k].rows == rows[PartIdx(tree[k].category)]
      {
        if k < |prev| {
          assert tree[k] == prev[k];
        } else {
          assert tree[k] == CategoryNode(Declared[n - 1], rows[n - 1]);
        }
      }
    }
  }

  /** The first n nodes are in declaration order. */
  lemma {:induction false} NodesBelowOrdered(catalog: Parts, rows: seq<seq<Row>>, n: nat)
    requires |rows| == CATEGORY_COUNT && n <= CATEGORY_COUNT
    ensures InDeclarationOrder(NodesBelow(catalog, rows, n))
  {
    if n > 0 {
      NodesBelowOrdered(catalog, rows, n - 1);
      NodesBelowCategories(catalog, rows, n - 1);
      PartIdxOfDeclared(n - 1);
      NodesBelowStep(catalog, rows, n);
      var prev := NodesBelow(catalog, rows, n - 1);
      var tree := NodesBelow(catalog, rows, n);
      forall a, b | 0 <= a < b < |tree|
        ensures PartIdx(tree[a].category) < PartIdx(tree[b].category)
      {
        assert tree[a] == prev[a];
        if b < |prev| {
          assert tree[b] == prev[b];
        } else {
          assert tree[b].category == Declared[n - 1];
        }
      }
    }
  }

  /** Every one of the first n categories with a non-empty catalog has a node. */
  lemma {:induction false} NodesBelowCover(catalog: Parts, rows: seq<seq<Row>>, n: nat, u: Category)
    requires |rows| == CATEGORY_COUNT && n <= CATEGORY_COUNT
    requires PartIdx(u) < n && |catalog(u)| > 0
    ensures HasNode(NodesBelow(catalog, rows, n), u)
  {
    var prev := NodesBelow(catalog, rows, n - 1);
    var tree := NodesBelow(catalog, rows, n);
    NodesBelowStep(catalog, rows, n);
    if PartIdx(u) < n - 1 {
      NodesBelowCover(catalog, rows, n - 1, u);
      var k :| 0 <= k < |prev| && prev[k].category == u;
      assert tree[k] == prev[k];
      assert tree[k].category == u;
    } else {
      DeclaredAtPartIdx(u);
      assert tree[|prev|].category == u;
    }
  }

  /** Over any table of rows: one node per category whose catalog is non-empty,
      in declaration order, holding that category's rows. */
  lemma NodesShape(catalog: Parts, rows: seq<seq<Row>>, t: Category)
    requires |rows| == CATEGORY_COUNT
    ensures var tree := NodesBelow(catalog, rows, CATEGORY_COUNT);
      && (HasNode(tree, t) <==> |catalog(t)| > 0)
      && InDeclarationOrder(tree)
      && (forall k :: 0 <= k < |tree| && tree[k].category == t ==> tree[k].rows == rows[PartIdx(t)])
  {
    NodesBelowNodes(catalog, rows, CATEGORY_COUNT);
    NodesBelowOrdered(catalog, rows, CATEGORY_COUNT);
    if |catalog(t)| > 0 {
      NodesBelowCover(catalog, rows, CATEGORY_COUNT, t);
    }
  }

  /** The tree holds one node per category whose catalog is non-empty, in
      declaration order, and that node holds the category's rows for the owned
      parts decoded from the RAM; a category with an empty catalog has no node. */
  lemma TreeShape(mem: seq<byte>, catalog: Parts, showAll: bool, t: Category)
    requires AllSlotsReadable(mem)
    ensures var tree := Tree(mem, catalog, showAll);
      && (HasNode(tree, t) <==> |catalog(t)| > 0)
      && InDeclarationOrder(tree)
      && (forall k :: 0 <= k < |tree| && tree[k].category == t ==>
            tree[k].rows == CategoryRows(catalog(t), OwnedParts(mem, t), showAll))
  {
    var table := RowsTable(mem, catalog, showAll);
    NodesShape(catalog, table, t);
    assert Tree(mem, catalog, showAll) == NodesBelow(catalog, table, CATEGORY_COUNT);
    assert table[PartIdx(t)] == CategoryRows(catalog(t), OwnedParts(mem, t), showAll);
  }

  /** One pass of load_parts' outer loop: owned_parts(t), then the row selection. */
  method LoadCategory(inventory: ArmoredCoreInventory, catalog: Parts, showAll: bool, t: Category)
    returns (rows: seq<Row>)
    requires SlotReadable(inventory.ram.mem, t)
    modifies inventory.ram`pos, inventory.ram`Trace
    ensures rows == CategoryRows(catalog(t), Layout.OwnedParts(inventory.ram.mem, t), showAll)
    ensures inventory.ram.Trace == old(inventory.ram.Trace) + OwnedPartsReads(inventory.ram.mem, t)
    ensures inventory.ram.pos == CursorAfter(inventory.ram.mem, t)
  {
    var owned := inventory.OwnedParts(t);
    rows := SelectRows(catalog(t), owned, showAll);
  }

  /** load_parts: for every declared category, decode its owned parts and
      select its rows; keep the node only when the catalog is non-empty. */
  method LoadParts(inventory: ArmoredCoreInventory, catalog: Parts, showAll: bool) returns (tree: seq<CategoryNode>)
    requires AllSlotsReadable(inventory.ram.mem)
    modifies inventory.ram`pos, inventory.ram`Trace
    ensures tree == Tree(inventory.ram.mem, catalog, showAll)
    ensures inventory.ram.Trace == old(inventory.ram.Trace) + ReadsBelow(inventory.ram.mem, CATEGORY_COUNT)
    ensures inventory.ram.pos == CursorAfter(inventory.ram.mem, OPTIONAL)
  {
    ghost var mem := inventory.ram.mem;
    ghost var table := RowsTable(mem, catalog, showAll);
    ghost var last := HEADS;
    tree := [];
    for c := 0 to CATEGORY_COUNT
      invariant tree == NodesBelow(catalog, table, c)
      invariant inventory.ram.Trace == old(inventory.ram.Trace) + ReadsBelow(mem, c)
      invariant 0 < c ==> PartIdx(last) == c - 1
      invariant 0 < c ==> inventory.ram.pos == CursorAfter(mem, last)
    {
      var t := Declared[c];
      var rows := LoadCategory(inventory, catalog, showAll, t);
      last := t;
      ReadsBelowStep(old(inventory.ram.Trace), mem, c);
      PartIdxOfDeclared(c);
      assert rows == table[c];
      NodesBelowStep(catalog, table, c + 1);
      if |catalog(t)| != 0 {
        tree := tree + [CategoryNode(t, rows)];
      }
    }
    DeclaredAtPartIdx(last);
  }
}
