/** The frontend's tree helpers: finding the parent of a node in a forest of
    tree nodes, turning item and category views into nodes, and the order in
    which sibling nodes are sorted.

    The frontend compares nodes by object identity; here a node is a value,
    and its identity is its key. `ItemNodeKeysDistinct` shows that the keys
    the two constructors give are distinct for distinct rows. */
module Tree {
  import opened Common

  /** An item as the frontend receives it. */
  datatype ItemView = ItemView(id: string, name: string, count: int, authorId: string, categoryId: string)

  /** A category as the frontend receives it. */
  datatype CategoryView = CategoryView(id: string, name: string, parentId: Option<string>)

  /** What a node carries. */
  datatype NodeData = ItemData(item: ItemView) | CategoryData(category: CategoryView) | NoData

  /** A node of the tree widget. Absent optional fields are None; a node
      without children has the empty sequence, as `children || []` reads it. */
  datatype TreeNode = TreeNode(
    key: string,
    labelText: Option<string>,
    icon: string,
    nodeType: Option<string>,
    leaf: Option<bool>,
    children: seq<TreeNode>,
    data: NodeData)

  // ---------------------------------------------------------------------
  // Parent lookup
  // ---------------------------------------------------------------------

  /** `n` is `root` or lies somewhere below it. */
  ghost predicate Contains(root: TreeNode, n: TreeNode)
    decreases root
  {
    root == n || exists i :: 0 <= i < |root.children| && Contains(root.children[i], n)
  }

  /** `p` has a direct child with the key of `target`. */
  ghost predicate IsParentOf(p: TreeNode, target: TreeNode) {
    exists j :: 0 <= j < |p.children| && p.children[j].key == target.key
  }

  /** The keys of the nodes strictly below `n`. */
  function KeysBelow(n: TreeNode): set<string>
    decreases n, 1
  {
    KeysBelowFrom(n, 0)
  }

  /** The keys of the children of `n` from index `i` on, and of everything below them. */
  function KeysBelowFrom(n: TreeNode, i: nat): set<string>
    requires i <= |n.children|
    decreases n, 0, |n.children| - i
  {
    if i == |n.children| then {}
    else {n.children[i].key} + KeysBelow(n.children[i]) + KeysBelowFrom(n, i + 1)
  }

  /** `findParent(root)`: None when `root` is the target itself; otherwise the
      first node found depth-first below `root` that has the target as a
      direct child. */
  function FindParent(root: TreeNode, target: TreeNode): (r: Option<TreeNode>)
    ensures r.Some? ==> IsParentOf(r.value, target) && Contains(root, r.value)
    ensures root.key == target.key ==> r.None?
    ensures r.Some? ==> FirstMatchFrom(root, 0, target, r)
    ensures r.None? && root.key != target.key ==> forall k :: 0 <= k < |root.children| ==> NoAnswerIn(root, k, target)
    decreases root, 1
  {
    if root.key == target.key then None else FindParentFrom(root, 0, target)
  }

  /** The loop of `findParent` over the children of `root`, from index `i`:
      a child that is the target makes `root` the answer; otherwise the search
      goes into that child before moving to the next one. */
  function FindParentFrom(root: TreeNode, i: nat, target: TreeNode): (r: Option<TreeNode>)
    requires i <= |root.children|
    ensures r.Some? ==> IsParentOf(r.value, target) && Contains(root, r.value)
    ensures r.Some? ==> FirstMatchFrom(root, i, target, r)
    ensures r.None? ==> forall k :: i <= k < |root.children| ==> NoAnswerIn(root, k, target)
    decreases root, 0, |root.children| - i + 2
  {
    if i == |root.children| then None
    else if root.children[i].key == target.key then
      assert ChildAnswers(root, i, target, Some(root));
      Some(root)
    else
      var found := FindParent(root.children[i], target);
      if found.Some? then
        assert ChildAnswers(root, i, target, found);
        found
      else
        assert NoAnswerIn(root, i, target);
        FindParentFrom(root, i + 1, target)
  }

  /** Depth-first, first match wins: `r` comes from child `j` (at or after
      `i`), which either is the target, making `root` the answer, or holds
      the answer `r` in its subtree; no earlier child is the target or holds
      a parent of it. */
  ghost predicate FirstMatchFrom(root: TreeNode, i: nat, target: TreeNode, r: Option<TreeNode>)
    requires i <= |root.children|
    decreases root, 0, 1
  {
    exists j :: i <= j < |root.children| && ChildAnswers(root, j, target, r)
                && forall k :: i <= k < j ==> NoAnswerIn(root, k, target)
  }

  /** Child `j` of `root` gives the answer `r`. */
  ghost predicate ChildAnswers(root: TreeNode, j: nat, target: TreeNode, r: Option<TreeNode>)
    requires j < |root.children|
    decreases root, 0, 0
  {
    if root.children[j].key == target.key then r == Some(root)
    else r == FindParent(root.children[j], target)
  }

  /** Child `k` of `root` is not the target and holds no parent of it. */
  ghost predicate NoAnswerIn(root: TreeNode, k: nat, target: TreeNode)
    requires k < |root.children|
    decreases root, 0, 0
  {
    root.children[k].key != target.key && FindParent(root.children[k], target).None?
  }

  /** `findParent(root)` finds nothing exactly when `root` is the target or
      the target's key occurs nowhere below `root`. */
  lemma {:induction false} FindParentNoneIff(root: TreeNode, target: TreeNode)
    ensures FindParent(root, target).None? <==> root.key == target.key || target.key !in KeysBelow(root)
    decreases root, 1
  {
    if root.key != target.key {
      FindParentFromNoneIff(root, 0, target);
    }
  }

  lemma {:induction false} FindParentFromNoneIff(root: TreeNode, i: nat, target: TreeNode)
    requires i <= |root.children|
    ensures FindParentFrom(root, i, target).None? <==> target.key !in KeysBelowFrom(root, i)
    decreases root, 0, |root.children| - i
  {
    if i < |root.children| {
      FindParentNoneIff(root.children[i], target);
      FindParentFromNoneIff(root, i + 1, target);
    }
  }

  /** The loop of `getParentNodeForNode` over the roots from index `i`. */
  function ParentAmongRoots(nodes: seq<TreeNode>, i: nat, target: TreeNode): (r: Option<TreeNode>)
    requires i <= |nodes|
    ensures r.None? <==> forall j :: i <= j < |nodes| ==> FindParent(nodes[j], target).None?
    ensures r.Some? ==>
      exists j :: i <= j < |nodes| && r == FindParent(nodes[j], target)
                  && forall k :: i <= k < j ==> FindParent(nodes[k], target).None?
    decreases |nodes| - i
  {
    if i == |nodes| then None
    else
      var found := FindParent(nodes[i], target);
      if found.Some? then found else ParentAmongRoots(nodes, i + 1, target)
  }

  /** `getParentNodeForNode`: the roots are searched in order and the first
      one whose subtree holds a parent of the target gives the answer. */
  function GetParentNodeForNode(nodes: seq<TreeNode>, target: TreeNode): (r: Option<TreeNode>)
    ensures r.Some? ==> IsParentOf(r.value, target) && exists j :: 0 <= j < |nodes| && Contains(nodes[j], r.value)
    ensures r.Some? ==>
      exists j :: 0 <= j < |nodes| && r == FindParent(nodes[j], target)
                  && forall k :: 0 <= k < j ==> FindParent(nodes[k], target).None?
  {
    ParentAmongRoots(nodes, 0, target)
  }

  /** No parent is found exactly when every root is the target itself or has
      nothing with the target's key below it. */
  lemma GetParentNoneIff(nodes: seq<TreeNode>, target: TreeNode)
    ensures GetParentNodeForNode(nodes, target).None? <==>
      forall j :: 0 <= j < |nodes| ==> nodes[j].key == target.key || target.key !in KeysBelow(nodes[j])
  {
    forall j | 0 <= j < |nodes| {
      FindParentNoneIff(nodes[j], target);
    }
  }

  /** A top-level target has no parent, provided its key does not occur below
      any root (as when all keys in the forest are distinct). */
  lemma TopLevelHasNoParent(nodes: seq<TreeNode>, target: TreeNode)
    requires exists j :: 0 <= j < |nodes| && nodes[j].key == target.key
    requires forall j :: 0 <= j < |nodes| ==> target.key !in KeysBelow(nodes[j])
    ensures GetParentNodeForNode(nodes, target).None?
  {
    GetParentNoneIff(nodes, target);
  }

  /** A target whose key occurs nowhere in the forest has no parent. */
  lemma AbsentHasNoParent(nodes: seq<TreeNode>, target: TreeNode)
    requires forall j :: 0 <= j < |nodes| ==> nodes[j].key != target.key && target.key !in KeysBelow(nodes[j])
    ensures GetParentNodeForNode(nodes, target).None?
  {
    GetParentNoneIff(nodes, target);
  }

  /** A target below some root it is not itself is always found a parent. */
  lemma NestedHasParent(nodes: seq<TreeNode>, target: TreeNode, j: nat)
    requires j < |nodes| && nodes[j].key != target.key && target.key in KeysBelow(nodes[j])
    ensures GetParentNodeForNode(nodes, target).Some?
  {
    GetParentNoneIff(nodes, target);
  }

  // ---------------------------------------------------------------------
  // Nodes from views
  // ---------------------------------------------------------------------

  const ItemKeyPrefix: string := "item_"
  const CategoryKeyPrefix: string := "category_"

  /** `itemDtoToTreeNode`: a childless item node keyed `item_<id>`. */
  function ItemDtoToTreeNode(item: ItemView): (n: TreeNode)
    ensures n.key == ItemKeyPrefix + item.id && n.labelText == Some(item.name)
    ensures n.nodeType == Some("item") && n.children == [] && n.data == ItemData(item)
    ensures n.icon == "pi pi-file" && n.leaf == None
  {
    TreeNode(ItemKeyPrefix + item.id, Some(item.name), "pi pi-file", Some("item"), None, [], ItemData(item))
  }

  /** `categoryDtoToTreeNode`: a category node keyed `category_<id>`, marked
      as not a leaf, whose children are loaded later. */
  function CategoryDtoToTreeNode(category: CategoryView): (n: TreeNode)
    ensures n.key == CategoryKeyPrefix + category.id && n.labelText == Some(category.name)
    ensures n.nodeType == Some("category") && n.leaf == Some(false) && n.children == []
    ensures n.data == CategoryData(category) && n.icon == "pi pi-folder"
  {
    TreeNode(CategoryKeyPrefix + category.id, Some(category.name), "pi pi-folder", Some("category"), Some(false), [], CategoryData(category))
  }

  /** Keys tell nodes apart: two item nodes, or two category nodes, share a
      key only when their ids are equal, and an item node never shares a key
      with a category node. */
  lemma ItemNodeKeysDistinct(i1: ItemView, i2: ItemView, c1: CategoryView, c2: CategoryView)
    ensures ItemDtoToTreeNode(i1).key == ItemDtoToTreeNode(i2).key <==> i1.id == i2.id
    ensures CategoryDtoToTreeNode(c1).key == CategoryDtoToTreeNode(c2).key <==> c1.id == c2.id
    ensures ItemDtoToTreeNode(i1).key != CategoryDtoToTreeNode(c1).key
  {
    var k1, k2 := ItemDtoToTreeNode(i1).key, ItemDtoToTreeNode(i2).key;
    if k1 == k2 {
      assert k1[|ItemKeyPrefix|..] == i1.id;
      assert k2[|ItemKeyPrefix|..] == i2.id;
    }
    var l1, l2 := CategoryDtoToTreeNode(c1).key, CategoryDtoToTreeNode(c2).key;
    if l1 == l2 {
      assert l1[|CategoryKeyPrefix|..] == c1.id;
      assert l2[|CategoryKeyPrefix|..] == c2.id;
    }
    assert k1[0] == 'i' && l1[0] == 'c';
  }

  // ---------------------------------------------------------------------
  // Sibling order
  // ---------------------------------------------------------------------

  /** JavaScript's `<` on strings: lexicographic on characters, a proper
      prefix coming first. */
  predicate LexLess(a: string, b: string)
    decreases |a|
  {
    if |a| == 0 then |b| > 0
    else if |b| == 0 then false
    else if a[0] != b[0] then a[0] < b[0]
    else LexLess(a[1..], b[1..])
  }

  /** `LexLess` is a strict total order: irreflexive, asymmetric, and any two
      different strings are ordered one way. */
  lemma {:induction false} LexLessStrictTotal(a: string, b: string)
    ensures !LexLess(a, a)
    ensures LexLess(a, b) ==> !LexLess(b, a)
    ensures a != b ==> LexLess(a, b) || LexLess(b, a)
    decreases |a|
  {
    if |a| > 0 {
      LexLessStrictTotal(a[1..], a[1..]);
    }
    if |a| > 0 && |b| > 0 {
      LexLessStrictTotal(a[1..], b[1..]);
      if a[0] == b[0] && a != b {
        assert a == [a[0]] + a[1..] && b == [b[0]] + b[1..];
      }
    }
  }

  /** A label that JavaScript treats as false: missing or empty. */
  predicate Falsy(text: Option<string>) {
    text.None? || text.value == ""
  }

  /** `customSortingForTreeNodes` as written: categories before items, then
      by label, with 0 when a label is missing or empty and 1 whenever the
      first label is not smaller, equal labels included. */
  function CustomSortingForTreeNodes(n1: TreeNode, n2: TreeNode): (c: int)
    ensures n1.nodeType == Some("category") && n2.nodeType == Some("item") ==> c == -1
    ensures n1.nodeType == Some("item") && n2.nodeType == Some("category") ==> c == 1
    ensures c in {-1, 0, 1}
  {
    if n1.nodeType == Some("category") && n2.nodeType == Some("item") then -1
    else if n1.nodeType == Some("item") && n2.nodeType == Some("category") then 1
    else if Falsy(n1.labelText) || Falsy(n2.labelText) then 0
    else if LexLess(n1.labelText.value, n2.labelText.value) then -1
    else 1
  }

  /** Outside the category/item case the comparator orders by label: 0 for a
      missing or empty label, -1 for a smaller first label, 1 otherwise; and
      two nodes with different labels get opposite answers in the two
      directions. */
  lemma ComparatorByLabel(n1: TreeNode, n2: TreeNode)
    requires ComparedByLabel(n1, n2)
    ensures Falsy(n1.labelText) || Falsy(n2.labelText) ==> CustomSortingForTreeNodes(n1, n2) == 0
    ensures !Falsy(n1.labelText) && !Falsy(n2.labelText) ==>
      (CustomSortingForTreeNodes(n1, n2) == -1 <==> LexLess(n1.labelText.value, n2.labelText.value))
    ensures !Falsy(n1.labelText) && !Falsy(n2.labelText) && n1.labelText != n2.labelText ==>
      CustomSortingForTreeNodes(n1, n2) == -CustomSortingForTreeNodes(n2, n1)
  {
    if !Falsy(n1.labelText) && !Falsy(n2.labelText) {
      LexLessStrictTotal(n1.labelText.value, n2.labelText.value);
    }
  }

  /** Any two nodes compared by label that carry the same non-empty label
      each sort after the other (a node even sorts after itself): the
      comparator is not antisymmetric. */
  lemma EqualLabelsSortAfterEachOther(n1: TreeNode, n2: TreeNode)
    requires ComparedByLabel(n1, n2) && !Falsy(n1.labelText) && n1.labelText == n2.labelText
    ensures CustomSortingForTreeNodes(n1, n2) == 1 && CustomSortingForTreeNodes(n2, n1) == 1
  {
    LexLessStrictTotal(n1.labelText.value, n1.labelText.value);
  }

  /** Neither node is the category of a category/item pair: the comparator
      falls through to the labels. */
  predicate ComparedByLabel(n1: TreeNode, n2: TreeNode) {
    && !(n1.nodeType == Some("category") && n2.nodeType == Some("item"))
    && !(n1.nodeType == Some("item") && n2.nodeType == Some("category"))
  }

  /** The comparator as evidently intended: equal labels compare as 0, and
      every other pair as before. */
  function CustomSortingIntended(n1: TreeNode, n2: TreeNode): (c: int)
    ensures ComparedByLabel(n1, n2) && !Falsy(n1.labelText) && n1.labelText == n2.labelText ==> c == 0
    ensures !(ComparedByLabel(n1, n2) && !Falsy(n1.labelText) && n1.labelText == n2.labelText) ==>
      c == CustomSortingForTreeNodes(n1, n2)
  {
    if ComparedByLabel(n1, n2) && !Falsy(n1.labelText) && n1.labelText == n2.labelText then 0
    else CustomSortingForTreeNodes(n1, n2)
  }

  /** The intended comparator is antisymmetric on all pairs of nodes. */
  lemma IntendedComparatorAntisymmetric(n1: TreeNode, n2: TreeNode)
    ensures CustomSortingIntended(n1, n2) == -CustomSortingIntended(n2, n1)
  {
    if !Falsy(n1.labelText) && !Falsy(n2.labelText) {
      LexLessStrictTotal(n1.labelText.value, n2.labelText.value);
    }
  }
}
