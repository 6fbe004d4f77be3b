/** The ReiserFS S+tree of second/fs_reiserfs.c: `read_tree_node` with its one-node-per-level cache,
    `search_stat`, and `next_key`, whose cursor is the array `next_key_nr`.

    The specification of a tree is the list of its items from left to right.
 */
module ReiserTree {
  import opened Common
  import opened ReiserDisk
  import opened ReiserJournal

  const REISERFS_MAX_TREE_HEIGHT := 7
  const BLKH_LEVEL_LEAF := 1
  const FILE_ERR_BAD_FSYS := -8

  // ---------- Trees on disk ----------

  // The node each block holds once the journal has been replayed.
  type Nodes = imap<nat, Node>

  ghost function NodeAt(nodes: Nodes, nr: nat): Node {
    if nr in nodes then nodes[nr] else Internal(0, [], [])
  }

  function LevelOf(n: Node): nat {
    match n
    case Leaf(_, _) => BLKH_LEVEL_LEAF
    case Internal(level, _, _) => level
  }

  /** Leaves are not empty; the children of an internal node, one more than its keys, are exactly one
      level lower.  Block 0 holds the boot sector and is never a tree node. */
  ghost predicate WellFormed(nodes: Nodes, n: Node, level: nat)
    decreases level
  {
    if level <= 1 then level == 1 && n.Leaf? && n.items != []
    else
      && n.Internal? && n.level == level && |n.children| == |n.keys| + 1
      && forall i | 0 <= i < |n.children| ::
           n.children[i] != 0 && WellFormed(nodes, NodeAt(nodes, n.children[i]), level - 1)
  }

  // The items below a node, from left to right.
  ghost function Items(nodes: Nodes, n: Node, level: nat): seq<Item>
    decreases level, 0
  {
    if level <= 1 then (if n.Leaf? then n.items else [])
    else if n.Internal? then ItemsOf(nodes, n.children, level - 1)
    else []
  }

  ghost function ItemsOf(nodes: Nodes, children: seq<word>, level: nat): seq<Item>
    decreases level, |children| + 1
  {
    if children == [] then []
    else Items(nodes, NodeAt(nodes, children[0]), level) + ItemsOf(nodes, children[1..], level)
  }

  ghost function LastLeaf(nodes: Nodes, n: Node, level: nat): Node
    decreases level
  {
    if level <= 1 || !n.Internal? || n.children == [] then n
    else LastLeaf(nodes, NodeAt(nodes, n.children[|n.children| - 1]), level - 1)
  }

  lemma ItemsOfInternal(nodes: Nodes, n: Node, level: nat)
    requires n.Internal? && level > 1
    ensures Items(nodes, n, level) == ItemsOf(nodes, n.children, level - 1)
  {
  }

  lemma ItemsFrom(nodes: Nodes, children: seq<word>, level: nat, c: nat)
    requires c < |children|
    ensures ItemsOf(nodes, children[c..], level)
         == Items(nodes, NodeAt(nodes, children[c]), level) + ItemsOf(nodes, children[c + 1..], level)
  {
    assert children[c..][1..] == children[c + 1..];
  }

  ghost predicate IsSuffix(s: seq<Item>, t: seq<Item>) {
    |s| <= |t| && s == t[|t| - |s|..]
  }

  lemma SuffixTrans(r: seq<Item>, s: seq<Item>, t: seq<Item>)
    requires IsSuffix(r, s) && IsSuffix(s, t)
    ensures IsSuffix(r, t)
  {
  }

  lemma NextSuffix(items: seq<Item>, i: nat, rest: seq<Item>, all: seq<Item>)
    requires i < |items| && IsSuffix(items[i..] + rest, all)
    ensures IsSuffix(items[i + 1..] + rest, all)
  {
    assert items[i..] + rest == [items[i]] + (items[i + 1..] + rest);
    SuffixOfConcat([items[i]], items[i + 1..] + rest);
    SuffixTrans(items[i + 1..] + rest, items[i..] + rest, all);
  }

  lemma SuffixOfConcat(a: seq<Item>, b: seq<Item>)
    ensures IsSuffix(b, a + b)
  {
  }

  // Dropping children on the left leaves a suffix, whatever follows.
  lemma {:induction false} DropChildren(nodes: Nodes, children: seq<word>, level: nat, c: nat, rest: seq<Item>)
    requires c <= |children|
    ensures IsSuffix(ItemsOf(nodes, children[c..], level) + rest, ItemsOf(nodes, children, level) + rest)
  {
    if c == 0 {
      assert children[c..] == children;
    } else {
      DropChildren(nodes, children, level, c - 1, rest);
      ItemsFrom(nodes, children, level, c - 1);
      var first := Items(nodes, NodeAt(nodes, children[c - 1]), level);
      var others := ItemsOf(nodes, children[c..], level);
      assert ItemsOf(nodes, children[c - 1..], level) + rest == first + (others + rest);
      SuffixOfConcat(first, others + rest);
      SuffixTrans(others + rest, ItemsOf(nodes, children[c - 1..], level) + rest,
                  ItemsOf(nodes, children, level) + rest);
    }
  }

  lemma {:induction false} ChildOf(nodes: Nodes, children: seq<word>, level: nat, x: Item) returns (j: nat)
    requires x in ItemsOf(nodes, children, level)
    ensures j < |children| && x in Items(nodes, NodeAt(nodes, children[j]), level)
  {
    if x in Items(nodes, NodeAt(nodes, children[0]), level) {
      j := 0;
    } else {
      var k := ChildOf(nodes, children[1..], level, x);
      j := k + 1;
    }
  }

  // ---------- Keys ----------

  function StatKey(dirId: word, objectId: word): Key {
    Key(dirId, objectId, 0, 0)
  }

  /** The comparison in search_stat: is `key` behind the stat key of the object? */
  predicate BehindStat(key: Key, dirId: word, objectId: word) {
    || key.dirId > dirId
    || (key.dirId == dirId && (|| key.objectId > objectId
                               || (key.objectId == objectId && (key.low != 0 || key.high != 0))))
  }

  /** What a < b implies for any order of keys that compares directory and object first and puts the
      stat key (offset and type zero) in front of the other keys of its object.  Version 1 and
      version 2 keys order the rest differently; nothing here depends on it. */
  predicate Before(a: Key, b: Key) {
    || a.dirId < b.dirId
    || (a.dirId == b.dirId && (|| a.objectId < b.objectId
                               || (a.objectId == b.objectId && (b.low != 0 || b.high != 0))))
  }

  // What a <= b implies.
  predicate NotAfter(a: Key, b: Key) {
    || a.dirId < b.dirId
    || (a.dirId == b.dirId && (|| a.objectId < b.objectId
                               || (a.objectId == b.objectId
                                   && (b.low == 0 && b.high == 0 ==> a.low == 0 && a.high == 0))))
  }

  /** keys[i] is above everything below children 0..i and at most everything below the later ones. */
  ghost predicate Separates(nodes: Nodes, n: Node, level: nat)
    requires level > 1 && n.Internal? && |n.children| == |n.keys| + 1
  {
    forall i, j, x |
      0 <= i < |n.keys| && 0 <= j < |n.children| && x in Items(nodes, NodeAt(nodes, n.children[j]), level - 1) ::
      if j <= i then Before(x.key, n.keys[i]) else NotAfter(n.keys[i], x.key)
  }

  ghost predicate Sorted(nodes: Nodes, n: Node, level: nat)
    requires WellFormed(nodes, n, level)
    decreases level
  {
    level > 1 ==>
      && Separates(nodes, n, level)
      && forall j | 0 <= j < |n.children| :: Sorted(nodes, NodeAt(nodes, n.children[j]), level - 1)
  }

  /** The one path search_stat takes is the right one. */
  lemma SeparatorsLead(nodes: Nodes, n: Node, level: nat, dirId: word, objectId: word, i: nat, x: Item)
    requires level > 1 && WellFormed(nodes, n, level) && Sorted(nodes, n, level)
    requires i <= |n.keys|
    requires forall k | 0 <= k < i :: !BehindStat(n.keys[k], dirId, objectId)
    requires i < |n.keys| ==> BehindStat(n.keys[i], dirId, objectId)
    requires x.key == StatKey(dirId, objectId) && x in Items(nodes, n, level)
    ensures x in Items(nodes, NodeAt(nodes, n.children[i]), level - 1)
  {
    var j := ChildOf(nodes, n.children, level - 1, x);
    assert j < i ==> Before(x.key, n.keys[j]);
    assert i < j ==> NotAfter(n.keys[i], x.key);
    assert i == j;
  }

  // ---------- The cursor ----------

  datatype ItemRef = InLeaf(index: nat) | RightDelim

  /** The part of the reader's state that says where in the tree it stands: slot 0 of the node cache is
      the root, slot 1 the leaf, slot d the node of depth d; `nextKeyNr[d]` is the child of the depth-d
      node to visit next, or 0 when that node is exhausted. */
  datatype Cursor = Cursor(slots: seq<Node>, nextKeyNr: seq<nat>, treeDepth: nat)
  {
    ghost predicate Shaped() {
      1 <= treeDepth <= |slots| && |slots| > 1 && treeDepth < |nextKeyNr|
    }

    // The node of depth d on the current path.
    function Node(d: nat): Node
      requires Shaped() && 1 <= d <= treeDepth
    {
      if d == 1 then slots[1] else if d == treeDepth then slots[0] else slots[d]
    }

    // The items of the tree, from left to right.
    ghost function All(nodes: Nodes): seq<Item>
      requires Shaped()
    {
      Items(nodes, slots[0], treeDepth)
    }

    // What the depth-d node still has to offer.
    ghost function RestAt(nodes: Nodes, d: nat): seq<Item>
      requires Shaped() && 2 <= d <= treeDepth
    {
      if Node(d).Internal? && 0 < nextKeyNr[d] <= |Node(d).children| then
        ItemsOf(nodes, Node(d).children[nextKeyNr[d]..], d - 1)
      else []
    }

    /** All items that follow those below the depth-d node. */
    ghost function RestAbove(nodes: Nodes, d: nat): seq<Item>
      requires Shaped() && 1 <= d
      decreases treeDepth - d
    {
      if d >= treeDepth then [] else RestAt(nodes, d + 1) + RestAbove(nodes, d + 1)
    }

    // The child of the depth-d node that the path goes through.
    function Taken(d: nat): nat
      requires Shaped() && 2 <= d <= treeDepth && Node(d).Internal?
    {
      if nextKeyNr[d] == 0 then |Node(d).keys| else nextKeyNr[d] - 1
    }

    /** From depth d upwards each node of the path is the child its parent's cursor has just left. */
    ghost predicate ChainFrom(nodes: Nodes, d: nat) {
      && Shaped()
      && forall e | d < e <= treeDepth && e >= 2 ::
           && Node(e).Internal? && Taken(e) < |Node(e).children|
           && Node(e - 1) == NodeAt(nodes, Node(e).children[Taken(e)])
    }

    /** From depth d upwards the path consists of nodes of the tree and its cursors are in range. */
    ghost predicate PathFrom(nodes: Nodes, d: nat) {
      && Shaped()
      && forall e | d <= e <= treeDepth && e >= 2 ::
           WellFormed(nodes, Node(e), e) && nextKeyNr[e] < |Node(e).children|
    }

    // The current item and everything behind it.
    ghost function Upcoming(nodes: Nodes, current: ItemRef): seq<Item>
      requires Shaped()
    {
      match current
      case RightDelim => []
      case InLeaf(i) =>
        (if slots[1].Leaf? && i <= |slots[1].items| then slots[1].items[i..] else []) + RestAbove(nodes, 1)
    }

    ghost predicate AtItem(nodes: Nodes, current: ItemRef) {
      && Shaped() && PathFrom(nodes, 2) && ChainFrom(nodes, 1)
      && WellFormed(nodes, slots[0], treeDepth) && (treeDepth == 1 ==> slots[1] == slots[0])
      && WellFormed(nodes, slots[1], 1)
      && (current.InLeaf? ==> current.index < |slots[1].items|)
      && (current.RightDelim? ==> slots[1] == LastLeaf(nodes, slots[0], treeDepth))
      && IsSuffix(Upcoming(nodes, current), All(nodes))
    }

    /** Index of the current item among all items of the tree; their number at the end marker. */
    ghost function Position(nodes: Nodes, current: ItemRef): nat
      requires AtItem(nodes, current)
    {
      |All(nodes)| - |Upcoming(nodes, current)|
    }

    lemma CurrentIsAtPosition(nodes: Nodes, current: ItemRef)
      requires AtItem(nodes, current)
      ensures current.InLeaf? ==>
                && Position(nodes, current) < |All(nodes)|
                && All(nodes)[Position(nodes, current)] == slots[1].items[current.index]
      ensures current.RightDelim? ==> Position(nodes, current) == |All(nodes)|
      ensures Upcoming(nodes, current) == All(nodes)[Position(nodes, current)..]
    {
      if current.InLeaf? {
        assert Upcoming(nodes, current)[0] == slots[1].items[current.index];
      }
    }

    /** Inside a leaf the next item is the next one of the tree. */
    lemma StepInLeaf(nodes: Nodes, i: nat)
      requires AtItem(nodes, InLeaf(i)) && i + 1 < |slots[1].items|
      ensures AtItem(nodes, InLeaf(i + 1))
      ensures Position(nodes, InLeaf(i + 1)) == Position(nodes, InLeaf(i)) + 1 < |All(nodes)|
    {
      hide PathFrom, ChainFrom, RestAbove, Items;
      var items, rest := slots[1].items, RestAbove(nodes, 1);
      NextSuffix(items, i, rest, All(nodes));
    }

    /** Behind the last item of a leaf comes what the ancestors have left; if that is nothing, the end. */
    lemma StepOutOfLeaf(nodes: Nodes, i: nat)
      requires AtItem(nodes, InLeaf(i)) && i + 1 == |slots[1].items|
      ensures IsSuffix(RestAbove(nodes, 1), All(nodes))
      ensures Position(nodes, InLeaf(i)) + 1 == |All(nodes)| - |RestAbove(nodes, 1)|
    {
      hide PathFrom, ChainFrom, RestAbove, Items;
      var items, rest := slots[1].items, RestAbove(nodes, 1);
      NextSuffix(items, i, rest, All(nodes));
      assert items[i + 1..] + rest == rest;
    }

    /** When no ancestor has a child left, nothing follows and the leaf is the rightmost one. */
    lemma AllExhausted(nodes: Nodes, i: nat)
      requires AtItem(nodes, InLeaf(i)) && i + 1 == |slots[1].items|
      requires forall e | 2 <= e <= treeDepth :: nextKeyNr[e] == 0
      ensures AtItem(nodes, RightDelim) && Position(nodes, RightDelim) == |All(nodes)| == Position(nodes, InLeaf(i)) + 1
    {
      NothingLeft(nodes, 1);
      Rightmost(nodes, treeDepth);
      StepOutOfLeaf(nodes, i);
      hide PathFrom, ChainFrom, Items, RestAbove, LastLeaf, WellFormed;
    }

    lemma NoRest(nodes: Nodes, d: nat)
      requires Shaped() && 2 <= d <= treeDepth && nextKeyNr[d] == 0
      ensures RestAt(nodes, d) == []
    {
    }

    lemma NothingAt(nodes: Nodes, d: nat)
      requires Shaped() && 2 <= d <= treeDepth && nextKeyNr[d] == 0
      ensures RestAbove(nodes, d - 1) == RestAbove(nodes, d)
    {
      hide RestAt;
      NoRest(nodes, d);
    }

    lemma {:induction false} NothingLeft(nodes: Nodes, d: nat)
      requires Shaped() && 1 <= d && forall e | 2 <= e <= treeDepth :: nextKeyNr[e] == 0
      ensures RestAbove(nodes, d) == []
      decreases treeDepth - d
    {
      hide RestAt;
      if d < treeDepth {
        NothingLeft(nodes, d + 1);
        NothingAt(nodes, d + 1);
      }
    }

    lemma {:induction false} Rightmost(nodes: Nodes, d: nat)
      requires PathFrom(nodes, 2) && ChainFrom(nodes, 1) && WellFormed(nodes, slots[1], 1) && 1 <= d <= treeDepth
      requires WellFormed(nodes, slots[0], treeDepth) && (treeDepth == 1 ==> slots[1] == slots[0])
      requires forall e | 2 <= e <= treeDepth :: nextKeyNr[e] == 0
      ensures LastLeaf(nodes, Node(d), d) == slots[1]
    {
      if d > 1 {
        Rightmost(nodes, d - 1);
      }
    }

    // RestAbove(d) does not look at depth d or below.
    lemma {:induction false} RestAboveFrame(nodes: Nodes, c: Cursor, d: nat)
      requires Shaped() && 1 <= d
      requires |c.slots| == |slots| && |c.nextKeyNr| == |nextKeyNr| && c.treeDepth == treeDepth
      requires c.slots[0] == slots[0]
      requires forall e | d < e <= treeDepth :: c.nextKeyNr[e] == nextKeyNr[e]
      requires forall e | d < e < treeDepth :: c.slots[e] == slots[e]
      ensures c.RestAbove(nodes, d) == RestAbove(nodes, d)
      decreases treeDepth - d
    {
      if d < treeDepth {
        RestAboveFrame(nodes, c, d + 1);
      }
    }

    /** The cursor after child i of the depth-d node has been entered: i + 1 is next, or 0 after the last. */
    function Enter(d: nat, i: nat, child: ReiserDisk.Node): Cursor
      requires Shaped() && 2 <= d <= treeDepth && Node(d).Internal?
    {
      Cursor(slots[d - 1 := child], nextKeyNr[d := if i == |Node(d).keys| then 0 else i + 1], treeDepth)
    }

    lemma EnterKeepsPath(nodes: Nodes, d: nat, i: nat)
      requires PathFrom(nodes, d + 1) && 2 <= d <= treeDepth && WellFormed(nodes, Node(d), d)
      requires i < |Node(d).children|
      ensures var c := Enter(d, i, NodeAt(nodes, Node(d).children[i]));
        && c.PathFrom(nodes, d)
        && WellFormed(nodes, c.Node(d - 1), d - 1)
        && c.RestAt(nodes, d) == ItemsOf(nodes, Node(d).children[i + 1..], d - 1)
    {
      var c := Enter(d, i, NodeAt(nodes, Node(d).children[i]));
      assert Node(d).children[i] != 0;
      assert forall e | d <= e <= treeDepth :: c.Node(e) == Node(e);
    }

    lemma EnterKeepsChain(nodes: Nodes, d: nat, i: nat)
      requires ChainFrom(nodes, d) && 2 <= d <= treeDepth && Node(d).Internal?
      requires i < |Node(d).children| == |Node(d).keys| + 1
      ensures Enter(d, i, NodeAt(nodes, Node(d).children[i])).ChainFrom(nodes, d - 1)
    {
      var c := Enter(d, i, NodeAt(nodes, Node(d).children[i]));
      assert forall e | d <= e <= treeDepth :: c.Node(e) == Node(e);
    }

    /** Entering child i moves its items out of what is still to come and changes nothing else. */
    lemma EnterChild(nodes: Nodes, d: nat, i: nat)
      requires PathFrom(nodes, d + 1) && ChainFrom(nodes, d) && 2 <= d <= treeDepth && WellFormed(nodes, Node(d), d)
      requires i < |Node(d).children|
      ensures var c := Enter(d, i, NodeAt(nodes, Node(d).children[i]));
        && c.PathFrom(nodes, d) && c.ChainFrom(nodes, d - 1)
        && WellFormed(nodes, c.Node(d - 1), d - 1)
        && ItemsOf(nodes, Node(d).children[i..], d - 1) + RestAbove(nodes, d)
           == Items(nodes, c.Node(d - 1), d - 1) + c.RestAbove(nodes, d - 1)
    {
      var c := Enter(d, i, NodeAt(nodes, Node(d).children[i]));
      EnterKeepsPath(nodes, d, i);
      EnterKeepsChain(nodes, d, i);
      ItemsFrom(nodes, Node(d).children, d - 1, i);
      RestAboveFrame(nodes, c, d);
      EnterSplits(nodes, d, i, c, Items(nodes, c.Node(d - 1), d - 1), ItemsOf(nodes, Node(d).children[i + 1..], d - 1));
    }

    lemma EnterSplits(nodes: Nodes, d: nat, i: nat, c: Cursor, first: seq<Item>, others: seq<Item>)
      requires Shaped() && c.Shaped() && c.treeDepth == treeDepth && 2 <= d <= treeDepth
      requires c.RestAt(nodes, d) == others && c.RestAbove(nodes, d) == RestAbove(nodes, d)
      ensures (first + others) + RestAbove(nodes, d) == first + c.RestAbove(nodes, d - 1)
    {
      assert c.RestAbove(nodes, d - 1) == others + RestAbove(nodes, d);
    }
  }

  /** A descent of search_stat has reached depth d: the items below that node and all that follow are
      the end of the tree. */
  ghost predicate Descended(nodes: Nodes, c: Cursor, d: nat) {
    && c.PathFrom(nodes, d + 1) && c.ChainFrom(nodes, d) && 1 <= d <= c.treeDepth
    && WellFormed(nodes, c.Node(d), d)
    && IsSuffix(Items(nodes, c.Node(d), d) + c.RestAbove(nodes, d), c.All(nodes))
  }

  lemma InternalAbove(nodes: Nodes, c: Cursor, d: nat)
    requires Descended(nodes, c, d) && d >= 2
    ensures c.Shaped() && c.Node(d).Internal? && |c.Node(d).children| == |c.Node(d).keys| + 1
  {
  }

  lemma DescendOnce(nodes: Nodes, c: Cursor, d: nat, i: nat)
    requires Descended(nodes, c, d) && d >= 2 && c.Node(d).Internal? && i < |c.Node(d).children|
    ensures c.Node(d).children[i] != 0 && LevelOf(NodeAt(nodes, c.Node(d).children[i])) == d - 1
    ensures Descended(nodes, c.Enter(d, i, NodeAt(nodes, c.Node(d).children[i])), d - 1)
  {
    c.EnterChild(nodes, d, i);
    var children, rest := c.Node(d).children, c.RestAbove(nodes, d);
    DropChildren(nodes, children, d - 1, i, rest);
    ItemsOfInternal(nodes, c.Node(d), d);
    hide Items, ItemsOf, IsSuffix;
    SuffixTrans(ItemsOf(nodes, children[i..], d - 1) + rest, Items(nodes, c.Node(d), d) + rest, c.All(nodes));
  }

  /** next_key, having found an ancestor that is not exhausted, goes down to the next leaf: at depth d,
      `rest` is what the node offers from its cursor on, followed by all that comes after the node.
      Below, the cursors are 0, which here means "start at child 0". */
  ghost predicate Entering(nodes: Nodes, c: Cursor, d: nat, rest: seq<Item>) {
    && c.PathFrom(nodes, d) && c.ChainFrom(nodes, d) && 2 <= d <= c.treeDepth
    && (forall e | 2 <= e < d :: c.nextKeyNr[e] == 0)
    && rest == ItemsOf(nodes, c.Node(d).children[c.nextKeyNr[d]..], d - 1) + c.RestAbove(nodes, d)
  }

  lemma EnteringStarts(nodes: Nodes, c: Cursor, d: nat, rest: seq<Item>)
    requires c.PathFrom(nodes, 2) && c.ChainFrom(nodes, 1) && 2 <= d <= c.treeDepth && c.nextKeyNr[d] != 0
    requires forall e | 2 <= e < d :: c.nextKeyNr[e] == 0
    requires rest == c.RestAbove(nodes, d - 1)
    ensures Entering(nodes, c, d, rest)
  {
  }

  lemma EnteringNode(nodes: Nodes, c: Cursor, d: nat, rest: seq<Item>)
    requires Entering(nodes, c, d, rest)
    ensures WellFormed(nodes, c.Node(d), d) && c.Node(d).Internal?
    ensures c.nextKeyNr[d] <= |c.Node(d).keys| && |c.Node(d).children| == |c.Node(d).keys| + 1
  {
    hide Cursor.RestAbove, ItemsOf, Items;
  }

  lemma LeafOrInternal(nodes: Nodes, n: Node, level: nat)
    requires WellFormed(nodes, n, level) && level >= 1
    ensures level == 1 ==> n.Leaf? && Items(nodes, n, level) == n.items
    ensures level > 1 ==> n.Internal? && Items(nodes, n, level) == ItemsOf(nodes, n.children, level - 1)
    ensures LevelOf(n) == level
  {
  }

  lemma EnterOnce(nodes: Nodes, c: Cursor, d: nat, rest: seq<Item>)
    requires Entering(nodes, c, d, rest)
    ensures c.Node(d).Internal? && |c.Node(d).children| == |c.Node(d).keys| + 1 && c.nextKeyNr[d] <= |c.Node(d).keys|
    ensures c.Node(d).children[c.nextKeyNr[d]] != 0
    ensures LevelOf(NodeAt(nodes, c.Node(d).children[c.nextKeyNr[d]])) == d - 1
    ensures var c' := c.Enter(d, c.nextKeyNr[d], NodeAt(nodes, c.Node(d).children[c.nextKeyNr[d]]));
            if d == 2 then EntersLeaf(nodes, c', rest) else Entering(nodes, c', d - 1, rest)
  {
    hide Cursor.RestAbove, ItemsOf, Items;
    EnteringNode(nodes, c, d, rest);
    c.EnterChild(nodes, d, c.nextKeyNr[d]);
    var c' := c.Enter(d, c.nextKeyNr[d], NodeAt(nodes, c.Node(d).children[c.nextKeyNr[d]]));
    LeafOrInternal(nodes, c'.Node(d - 1), d - 1);
    if d > 2 {
      assert c'.Node(d - 1).children[0..] == c'.Node(d - 1).children;
    }
  }

  ghost predicate EntersLeaf(nodes: Nodes, c: Cursor, rest: seq<Item>) {
    && c.PathFrom(nodes, 2) && c.ChainFrom(nodes, 1)
    && WellFormed(nodes, c.slots[1], 1)
    && rest == c.slots[1].items + c.RestAbove(nodes, 1)
  }

  lemma EnteredLeaf(nodes: Nodes, c: Cursor, rest: seq<Item>)
    requires EntersLeaf(nodes, c, rest) && IsSuffix(rest, c.All(nodes))
    requires WellFormed(nodes, c.slots[0], c.treeDepth) && (c.treeDepth == 1 ==> c.slots[1] == c.slots[0])
    ensures c.AtItem(nodes, InLeaf(0))
    ensures c.Position(nodes, InLeaf(0)) == |c.All(nodes)| - |rest| < |c.All(nodes)|
  {
    assert c.slots[1].items[0..] == c.slots[1].items;
  }

  /** What makes the search complete: a stat item of the tree can only be below node n. */
  ghost predicate OnlyBelow(nodes: Nodes, all: seq<Item>, n: Node, level: nat, key: Key) {
    && WellFormed(nodes, n, level)
    && Sorted(nodes, n, level)
    && forall x | x in all && x.key == key :: x in Items(nodes, n, level)
  }

  lemma NarrowOnce(nodes: Nodes, all: seq<Item>, n: Node, level: nat, dirId: word, objectId: word, i: nat)
    requires level > 1 && OnlyBelow(nodes, all, n, level, StatKey(dirId, objectId))
    requires i <= |n.keys|
    requires forall k | 0 <= k < i :: !BehindStat(n.keys[k], dirId, objectId)
    requires i < |n.keys| ==> BehindStat(n.keys[i], dirId, objectId)
    ensures OnlyBelow(nodes, all, NodeAt(nodes, n.children[i]), level - 1, StatKey(dirId, objectId))
  {
    forall x | x in all && x.key == StatKey(dirId, objectId)
      ensures x in Items(nodes, NodeAt(nodes, n.children[i]), level - 1)
    {
      SeparatorsLead(nodes, n, level, dirId, objectId, i, x);
    }
  }

  class TreeReader {
    const journal: JournalReader
    // What the journal reader delivers for each block.
    ghost const nodes: Nodes
    // The node cache: slot 0 the root, slot 1 the leaf, slot d the node of depth d.
    var slots: seq<Node>
    const cachedSlots: nat
    var blocks: seq<word>
    var nextKeyNr: seq<nat>
    var treeDepth: nat
    var current: ItemRef
    var errnum: int
    // Number of searches so far.
    ghost var searches: nat

    constructor (journal: JournalReader, cachedSlots: nat)
      requires journal.Valid() && BlocksDistinct(journal.v, journal.transactions) && cachedSlots >= 1
      ensures this.journal == journal && this.cachedSlots == cachedSlots
      ensures Linked() && Coherent() && |nextKeyNr| == REISERFS_MAX_TREE_HEIGHT
      ensures forall d | 0 <= d < |blocks| :: blocks[d] == 0
    {
      this.journal := journal;
      nodes := imap nr: nat | true :: Replayed(journal.v, journal.transactions, nr).node;
      this.cachedSlots := cachedSlots;
      slots := seq(cachedSlots + 1, _ => Internal(0, [], []));
      blocks := seq(REISERFS_MAX_TREE_HEIGHT, _ => 0);
      nextKeyNr := seq(REISERFS_MAX_TREE_HEIGHT, _ => 0);
      treeDepth, current, errnum, searches := 0, RightDelim, 0, 0;
    }

    /** The end of reiserfs_read_super: the root tells the depth of the tree. */
    method ReadRoot(rootBlock: nat) returns (ok: bool)
      requires Linked() && Coherent() && cachedSlots >= 1 && |nextKeyNr| == REISERFS_MAX_TREE_HEIGHT
      requires forall d | 0 <= d < |blocks| :: blocks[d] == 0
      modifies this
      ensures ok <==> LevelOf(NodeAt(nodes, rootBlock)) < REISERFS_MAX_TREE_HEIGHT
      ensures treeDepth == LevelOf(NodeAt(nodes, rootBlock))
      ensures ok && treeDepth <= cachedSlots + 1 && WellFormed(nodes, NodeAt(nodes, rootBlock), treeDepth) ==>
                Valid() && All() == Items(nodes, NodeAt(nodes, rootBlock), treeDepth)
    {
      var b := journal.IntendedBlockRead(rootBlock);
      slots := slots[0 := b.node];
      treeDepth := LevelOf(b.node);
      if treeDepth >= REISERFS_MAX_TREE_HEIGHT {
        return false;
      }
      if treeDepth == BLKH_LEVEL_LEAF {
        slots := slots[1 := slots[0]];
      }
      ok := true;
    }

    ghost predicate Linked()
      reads journal, journal.table
    {
      && journal.Valid() && BlocksDistinct(journal.v, journal.transactions)
      && forall nr: nat {:trigger Replayed(journal.v, journal.transactions, nr)} ::
           nr in nodes && nodes[nr] == Replayed(journal.v, journal.transactions, nr).node
    }

    /** Cache coherence: a slot whose block number is set holds that block, journal taken into account. */
    ghost predicate Coherent()
      reads `slots, `blocks
    {
      && |slots| == cachedSlots + 1 && |blocks| == REISERFS_MAX_TREE_HEIGHT
      && forall d | 1 <= d <= cachedSlots && d < |blocks| && blocks[d] != 0 ::
           slots[d] == NodeAt(nodes, blocks[d]) && LevelOf(slots[d]) == d
    }

    ghost predicate Valid()
      reads this, journal, journal.table
    {
      Linked() && Mounted()
    }

    // A well-formed tree is in use and the cache is coherent.
    ghost predicate Mounted()
      reads `slots, `blocks, `nextKeyNr, `treeDepth
    {
      && Coherent()
      && |slots| == cachedSlots + 1
      && 1 <= treeDepth <= cachedSlots + 1 && treeDepth < REISERFS_MAX_TREE_HEIGHT
      && cachedSlots >= 1
      && |nextKeyNr| == REISERFS_MAX_TREE_HEIGHT
      && WellFormed(nodes, slots[0], treeDepth)
      && (treeDepth == 1 ==> slots[1] == slots[0])
    }

    ghost function State(): Cursor
      reads `slots, `nextKeyNr, `treeDepth
    {
      Cursor(slots, nextKeyNr, treeDepth)
    }

    // All items of the tree.
    ghost function All(): seq<Item>
      requires Mounted()
      reads this
    {
      State().All(nodes)
    }

    ghost predicate AtItem()
      reads this
    {
      Mounted() && State().AtItem(nodes, current)
    }

    ghost function Position(): nat
      requires AtItem()
      reads this
    {
      State().Position(nodes, current)
    }

    function CurrentItem(): Item
      requires AtItem() && current.InLeaf?
      reads this
    {
      slots[1].items[current.index]
    }

    // `current_ih->ih_key.k_objectid`; behind the last item that is the leaf's right delimiting key.
    function CurrentObjectId(): word
      requires AtItem()
      reads this
    {
      match current
      case InLeaf(i) => slots[1].items[i].key.objectId
      case RightDelim => slots[1].rightDelimKey.objectId
    }

    /** `read_tree_node`: the node an uncached read would deliver, if it has the level asked for.
        Otherwise the slot is overwritten but its block number is not: coherence is lost there. */
    method ReadTreeNode(blockNr: word, depth: nat) returns (ok: bool, node: Node)
      requires Linked() && Coherent() && blockNr != 0
      requires 1 <= depth <= cachedSlots && depth < REISERFS_MAX_TREE_HEIGHT
      modifies this
      ensures ok <==> LevelOf(NodeAt(nodes, blockNr)) == depth
      ensures node == NodeAt(nodes, blockNr)
      ensures slots == old(slots)[depth := node]
      ensures blocks == if ok then old(blocks)[depth := blockNr] else old(blocks)
      ensures ok ==> Coherent()
      ensures errnum == if ok then 0 else FILE_ERR_BAD_FSYS
      ensures unchanged(`nextKeyNr, `treeDepth, `current, `searches)
    {
      errnum := 0;
      node := slots[depth];
      if depth < cachedSlots && blockNr == blocks[depth] {
        assert slots == slots[depth := node];
        assert blocks == blocks[depth := blockNr];
        return true, node;
      }
      var b := journal.IntendedBlockRead(blockNr);
      node := b.node;
      slots := slots[depth := node];
      if LevelOf(node) != depth {
        errnum := FILE_ERR_BAD_FSYS;
        return false, node;
      }
      blocks := blocks[depth := blockNr];
      ok := true;
    }

    /** `search_stat`: follows one path and looks into one leaf. */
    method SearchStat(dirId: word, objectId: word) returns (found: bool)
      requires Valid()
      modifies this
      ensures Valid() && treeDepth == old(treeDepth) && slots[0] == old(slots[0]) && All() == old(All())
      ensures searches == old(searches) + 1
      ensures found ==> AtItem() && current.InLeaf? && CurrentItem().key == StatKey(dirId, objectId)
      ensures errnum == if found then 0 else FILE_ERR_BAD_FSYS
      ensures Sorted(nodes, slots[0], treeDepth) ==>
                (found <==> exists x :: x in All() && x.key == StatKey(dirId, objectId))
    {
      hide Linked, Coherent, WellFormed, Sorted, Descended;
      searches := searches + 1;
      Descend(dirId, objectId);
      InLeafNow(dirId, objectId);
      var i := FirstWithKey(slots[1].items, StatKey(dirId, objectId));
      found := i < |slots[1].items|;
      if found {
        current := InLeaf(i);
        StandInLeaf(i);
      } else {
        errnum := FILE_ERR_BAD_FSYS;
      }
    }

    method FirstWithKey(items: seq<Item>, key: Key) returns (i: nat)
      ensures i <= |items|
      ensures forall k | 0 <= k < i :: items[k].key != key
      ensures i < |items| ==> items[i].key == key
    {
      i := 0;
      while i < |items| && items[i].key != key
        invariant i <= |items|
        invariant forall k | 0 <= k < i :: items[k].key != key
      {
        i := i + 1;
      }
    }

    lemma InLeafNow(dirId: word, objectId: word)
      requires Mounted() && Descended(nodes, State(), 1)
      requires Sorted(nodes, slots[0], treeDepth) ==> OnlyBelow(nodes, All(), slots[1], 1, StatKey(dirId, objectId))
      ensures slots[1].Leaf?
      ensures Sorted(nodes, slots[0], treeDepth) ==>
                forall x | x in All() && x.key == StatKey(dirId, objectId) :: x in slots[1].items
    {
    }

    lemma SuffixFrom(items: seq<Item>, i: nat, rest: seq<Item>, all: seq<Item>)
      requires i < |items| && IsSuffix(items + rest, all)
      ensures IsSuffix(items[i..] + rest, all) && items[i] in all
    {
      assert items + rest == items[..i] + (items[i..] + rest);
      SuffixOfConcat(items[..i], items[i..] + rest);
      SuffixTrans(items[i..] + rest, items + rest, all);
      assert (items[i..] + rest)[0] == items[i];
    }

    lemma StandInLeaf(i: nat)
      requires Mounted() && Descended(nodes, State(), 1) && i < |slots[1].items|
      ensures State().AtItem(nodes, InLeaf(i))
      ensures slots[1].items[i] in All()
    {
      hide Items, ItemsOf, Cursor.RestAbove, IsSuffix;
      var items, rest := slots[1].items, State().RestAbove(nodes, 1);
      LeafOrInternal(nodes, slots[1], 1);
      SuffixFrom(items, i, rest, All());
    }

    lemma DescentStarts()
      requires Mounted()
      ensures slots[0] == State().Node(treeDepth)
      ensures Descended(nodes, State(), treeDepth)
      ensures Sorted(nodes, slots[0], treeDepth) ==>
                forall key :: OnlyBelow(nodes, All(), slots[0], treeDepth, key)
    {
      assert State().RestAbove(nodes, treeDepth) == [];
    }

    // The loop of search_stat over the internal levels.
    method Descend(dirId: word, objectId: word)
      requires Valid()
      modifies this
      ensures Valid() && treeDepth == old(treeDepth) && slots[0] == old(slots[0])
      ensures searches == old(searches) && errnum == 0
      ensures Descended(nodes, State(), 1)
      ensures Sorted(nodes, slots[0], treeDepth) ==> OnlyBelow(nodes, All(), slots[1], 1, StatKey(dirId, objectId))
    {
      hide Linked, Coherent, WellFormed, Descended, OnlyBelow, Sorted, Items, ItemsOf, Cursor.RestAbove, Separates,
           LastLeaf, BehindStat, StatKey, JournalReader.Valid, Replayed;
      errnum := 0;
      var depth := treeDepth;
      var cache := slots[0];
      DescentStarts();
      while depth > BLKH_LEVEL_LEAF
        invariant 1 <= depth <= treeDepth == old(treeDepth)
        invariant Valid() && slots[0] == old(slots[0]) && errnum == 0 && searches == old(searches)
        invariant cache == State().Node(depth)
        invariant Descended(nodes, State(), depth)
        invariant Sorted(nodes, slots[0], treeDepth) ==> OnlyBelow(nodes, All(), cache, depth, StatKey(dirId, objectId))
      {
        InternalAbove(nodes, State(), depth);
        var i := FirstBehind(cache.keys, dirId, objectId);
        ghost var c, n := State(), cache;
        nextKeyNr := nextKeyNr[depth := if i == |cache.keys| then 0 else i + 1];
        DescendOnce(nodes, c, depth, i);
        if Sorted(nodes, slots[0], treeDepth) {
          NarrowOnce(nodes, All(), n, depth, dirId, objectId, i);
        }
        depth := depth - 1;
        var ok;
        ok, cache := ReadTreeNode(cache.children[i], depth);
        assert State() == c.Enter(depth + 1, i, cache);
      }
    }

    /** `next_key`: on to the next item of the tree, or to the end marker behind the last one. */
    method NextKey() returns (ok: bool)
      requires Valid() && AtItem() && current.InLeaf?
      modifies this
      ensures ok && Valid() && AtItem()
      ensures treeDepth == old(treeDepth) && slots[0] == old(slots[0]) && All() == old(All())
      ensures searches == old(searches)
      ensures Position() == old(Position()) + 1
      ensures current.RightDelim? <==> Position() == |All()|
      ensures errnum == old(errnum) || errnum == 0
    {
      hide Linked, Coherent, WellFormed, EntersLeaf, Cursor.AtItem, Cursor.Position, Cursor.PathFrom,
           Cursor.ChainFrom;
      CursorFacts();
      ghost var c := State();
      if InLastItem() {
        c.StepOutOfLeaf(nodes, current.index);
        var depth := Unexhausted();
        if depth == 0 {
          c.AllExhausted(nodes, current.index);
          current := RightDelim;
        } else {
          EnterLeaf(depth, c.RestAbove(nodes, 1));
          EnteredLeaf(nodes, State(), c.RestAbove(nodes, 1));
          current := InLeaf(0);
        }
      } else {
        c.StepInLeaf(nodes, current.index);
        current := InLeaf(current.index + 1);
      }
      ok := true;
    }

    lemma CursorFacts()
      requires AtItem()
      ensures State().Shaped() && State().PathFrom(nodes, 2) && State().ChainFrom(nodes, 1) && |slots| > 1
      ensures current.InLeaf? ==> slots[1].Leaf? && current.index < |slots[1].items|
    {
    }

    // The lowest ancestor with a child left to visit; 0 if there is none.
    method Unexhausted() returns (depth: nat)
      requires AtItem()
      ensures depth == 0 ==> forall e | 2 <= e <= treeDepth :: nextKeyNr[e] == 0
      ensures depth > 0 ==>
                && 2 <= depth <= treeDepth && nextKeyNr[depth] != 0
                && (forall e | 2 <= e < depth :: nextKeyNr[e] == 0)
                && State().RestAbove(nodes, 1) == State().RestAbove(nodes, depth - 1)
    {
      hide Coherent, Cursor.AtItem, Cursor.RestAbove, Cursor.RestAt, Cursor.PathFrom, Cursor.ChainFrom;
      CursorFacts();
      depth := BLKH_LEVEL_LEAF;
      while true
        invariant 1 <= depth <= treeDepth
        invariant forall e | 2 <= e <= depth :: nextKeyNr[e] == 0
        invariant State().RestAbove(nodes, 1) == State().RestAbove(nodes, depth)
        decreases treeDepth - depth
      {
        if depth == treeDepth {
          return 0;
        }
        depth := depth + 1;
        if nextKeyNr[depth] != 0 {
          return depth;
        }
        State().NothingAt(nodes, depth);
      }
    }

    predicate InLastItem()
      requires AtItem() && current.InLeaf?
      reads this
      ensures InLastItem() <==> current.index + 1 == |slots[1].items|
      ensures !InLastItem() <==> current.index + 1 < |slots[1].items|
    {
      current.index + 1 == |slots[1].items|
    }

    // The descent of next_key from an ancestor that is not exhausted.
    method EnterLeaf(d: nat, ghost rest: seq<Item>)
      requires Valid() && 2 <= d <= treeDepth
      requires State().PathFrom(nodes, 2) && State().ChainFrom(nodes, 1) && nextKeyNr[d] != 0
      requires forall e | 2 <= e < d :: nextKeyNr[e] == 0
      requires rest == State().RestAbove(nodes, d - 1)
      modifies this
      ensures Valid() && treeDepth == old(treeDepth) && slots[0] == old(slots[0])
      ensures unchanged(`searches, `current) && errnum == 0
      ensures EntersLeaf(nodes, State(), rest)
    {
      hide Linked, Coherent, WellFormed, Entering, EntersLeaf, Cursor.PathFrom;
      var depth := d;
      var cache := if depth == treeDepth then slots[0] else slots[depth];
      EnteringStarts(nodes, State(), depth, rest);
      while depth > BLKH_LEVEL_LEAF
        invariant 1 <= depth <= d <= treeDepth == old(treeDepth)
        invariant Valid() && slots[0] == old(slots[0])
        invariant unchanged(`searches, `current) && (depth < d ==> errnum == 0)
        invariant cache == State().Node(depth)
        invariant if depth == 1 then EntersLeaf(nodes, State(), rest) else Entering(nodes, State(), depth, rest)
      {
        cache := EnterNode(depth, cache, rest);
        depth := depth - 1;
      }
    }

    // One turn of that descent: read the child the cursor points to and move the cursor on.
    method EnterNode(depth: nat, node: Node, ghost rest: seq<Item>) returns (child: Node)
      requires Valid() && 2 <= depth <= treeDepth
      requires Entering(nodes, State(), depth, rest) && node == State().Node(depth)
      modifies this
      ensures Valid() && treeDepth == old(treeDepth) && slots[0] == old(slots[0])
      ensures unchanged(`searches, `current) && errnum == 0
      ensures child == State().Node(depth - 1)
      ensures if depth == 2 then EntersLeaf(nodes, State(), rest) else Entering(nodes, State(), depth - 1, rest)
    {
      hide Linked, Coherent, WellFormed, Entering, EntersLeaf, Cursor.PathFrom, Cursor.ChainFrom;
      ghost var c := State();
      EnterOnce(nodes, c, depth, rest);
      var keyNr := nextKeyNr[depth];
      nextKeyNr := nextKeyNr[depth := keyNr + 1];
      if keyNr == |node.keys| {
        nextKeyNr := nextKeyNr[depth := 0];
      }
      assert nextKeyNr == c.Enter(depth, keyNr, node).nextKeyNr;
      var ok;
      ok, child := ReadTreeNode(node.children[keyNr], depth - 1);
      assert State() == c.Enter(depth, keyNr, child);
    }

    // The first key behind the stat key of the object.
    method FirstBehind(keys: seq<Key>, dirId: word, objectId: word) returns (i: nat)
      ensures i <= |keys|
      ensures forall k | 0 <= k < i :: !BehindStat(keys[k], dirId, objectId)
      ensures i < |keys| ==> BehindStat(keys[i], dirId, objectId)
    {
      i := 0;
      while i < |keys| && !BehindStat(keys[i], dirId, objectId)
        invariant 0 <= i <= |keys|
        invariant forall k | 0 <= k < i :: !BehindStat(keys[k], dirId, objectId)
      {
        i := i + 1;
      }
    }
  }
}
