/** The directory's sibling tree ([MS-CFB] section 2.6): ids linked left and right, walked in order. */
module DirectoryTrees {
  import opened Wrappers
  import opened SectorChains

  const STORAGE: nat := 1
  const ROOT: nat := 5

  /** A directory entry; the name is its UTF-16 code units. */
  datatype Entry = Entry(
    name: seq<nat>,
    kind: nat,
    leftSibling: nat,
    rightSibling: nat,
    child: nat,
    startSector: nat,
    size: nat)

  datatype Tree = Leaf | Node(left: Tree, id: nat, entry: Entry, right: Tree)

  /** Slot `id` holds `e`, and `e` may stand in a sibling tree. */
  predicate Visitable(slots: seq<Option<Entry>>, id: nat, e: Entry) {
    id < |slots| && id != 0xffffffff && slots[id] == Some(e) && e.kind != 5
  }

  /** `t` is the finite tree that the sibling links unfold to from `id`. */
  ghost predicate IsTree(slots: seq<Option<Entry>>, id: nat, t: Tree)
    decreases t
  {
    match t
    case Leaf => id == 0xffffffff
    case Node(l, i, e, r) =>
      i == id && Visitable(slots, id, e) && IsTree(slots, e.leftSibling, l) && IsTree(slots, e.rightSibling, r)
  }

  /** The link that leads to a tree: its root's id, or the mark for no sibling. */
  ghost function LinkTo(t: Tree): nat {
    if t.Leaf? then 0xffffffff else t.id
  }

  ghost function Subtrees(t: Tree): set<Tree> {
    match t
    case Leaf => {t}
    case Node(l, _, _, r) => {t} + Subtrees(l) + Subtrees(r)
  }

  /** The slot of a node holds its entry, which is not the root's, and the entry's links lead to the node's subtrees. */
  ghost predicate IsLinked(slots: seq<Option<Entry>>, u: Tree) {
    u.Node? ==>
      && u.id < |slots| && u.id != 0xffffffff && slots[u.id] == Some(u.entry) && u.entry.kind != 5
      && u.entry.leftSibling == LinkTo(u.left) && u.entry.rightSibling == LinkTo(u.right)
  }

  lemma RootIsSubtree(t: Tree)
    ensures t in Subtrees(t)
  {
  }

  /** A tree node by node. */
  lemma {:induction false} TreesAreExact(slots: seq<Option<Entry>>, id: nat, t: Tree)
    ensures IsTree(slots, id, t) <==> id == LinkTo(t) && forall u :: u in Subtrees(t) ==> IsLinked(slots, u)
    decreases t
  {
    if t.Node? {
      TreesAreExact(slots, t.entry.leftSibling, t.left);
      TreesAreExact(slots, t.entry.rightSibling, t.right);
      RootIsSubtree(t);
      assert IsLinked(slots, t) && t.id == id <==>
             Visitable(slots, id, t.entry) && t.id == id
             && t.entry.leftSibling == LinkTo(t.left) && t.entry.rightSibling == LinkTo(t.right);
    }
  }

  ghost function InOrder(t: Tree): seq<nat> {
    match t
    case Leaf => []
    case Node(l, i, e, r) => InOrder(l) + [i] + InOrder(r)
  }

  ghost function EntriesOf(t: Tree): seq<Entry> {
    match t
    case Leaf => []
    case Node(l, i, e, r) => EntriesOf(l) + [e] + EntriesOf(r)
  }

  ghost predicate DistinctNames(entries: seq<Entry>) {
    forall i, j :: 0 <= i < j < |entries| ==> entries[i].name != entries[j].name
  }

  /** Sibling links unfold to at most one finite tree. */
  lemma {:induction false} TreeUnique(slots: seq<Option<Entry>>, id: nat, t: Tree, u: Tree)
    requires IsTree(slots, id, t) && IsTree(slots, id, u)
    ensures t == u
    decreases t
  {
    if t.Node? {
      TreeUnique(slots, t.entry.leftSibling, t.left, u.left);
      TreeUnique(slots, t.entry.rightSibling, t.right, u.right);
    }
  }

  /** The tree's ids and entries correspond position by position, and each is a non-root slot. */
  lemma {:induction false} EntriesMatchIds(slots: seq<Option<Entry>>, id: nat, t: Tree)
    requires IsTree(slots, id, t)
    ensures |EntriesOf(t)| == |InOrder(t)|
    ensures forall k :: 0 <= k < |InOrder(t)| ==> Visitable(slots, InOrder(t)[k], EntriesOf(t)[k])
    decreases t
  {
    if t.Node? {
      EntriesMatchIds(slots, t.entry.leftSibling, t.left);
      EntriesMatchIds(slots, t.entry.rightSibling, t.right);
    }
  }

  /** A visit from `id` can succeed: the links form a tree of fresh, distinct ids with fresh, distinct names. */
  ghost predicate CanVisit(slots: seq<Option<Entry>>, id: nat, seen: set<nat>, entries: seq<Entry>, t: Tree) {
    && IsTree(slots, id, t)
    && (forall i :: i in InOrder(t) ==> i !in seen)
    && Distinct(InOrder(t))
    && DistinctNames(entries + EntriesOf(t))
  }

  ghost function Ids(t: Tree): set<nat> {
    set i | i in InOrder(t)
  }

  predicate HasName(entries: seq<Entry>, name: seq<nat>) {
    exists i :: 0 <= i < |entries| && entries[i].name == name
  }

  lemma DistinctNamesPrefix(a: seq<Entry>, b: seq<Entry>)
    requires DistinctNames(a + b)
    ensures DistinctNames(a)
  {
    assert forall i :: 0 <= i < |a| ==> (a + b)[i] == a[i];
  }

  /** The visitor's steps at a node: the node itself, its left siblings, its name, its right siblings. */
  ghost predicate NodeSteps(slots: seq<Option<Entry>>, seen: set<nat>, entries: seq<Entry>, t: Tree)
    requires t.Node?
  {
    && t.id !in seen
    && CanVisit(slots, t.entry.leftSibling, seen + {t.id}, entries, t.left)
    && !HasName(entries + EntriesOf(t.left), t.entry.name)
    && CanVisit(slots, t.entry.rightSibling, seen + {t.id} + Ids(t.left),
                entries + EntriesOf(t.left) + [t.entry], t.right)
  }

  lemma DistinctConcat(a: seq<nat>, b: seq<nat>)
    requires Distinct(a) && Distinct(b) && forall x :: x in a ==> x !in b
    ensures Distinct(a + b)
  {
    var s := a + b;
    forall i, j | 0 <= i < j < |s|
      ensures s[i] != s[j]
    {
      if i < |a| <= j {
        assert s[i] in a && s[j] in b;
      }
    }
  }

  lemma DistinctSplit(a: seq<nat>, b: seq<nat>)
    requires Distinct(a + b)
    ensures Distinct(a) && Distinct(b) && forall x :: x in a ==> x !in b
  {
    var s := a + b;
    assert forall i :: 0 <= i < |a| ==> s[i] == a[i];
    assert forall j :: 0 <= j < |b| ==> s[|a| + j] == b[j];
    assert Distinct(b) by {
      forall i, j | 0 <= i < j < |b|
        ensures b[i] != b[j]
      {
        assert s[|a| + i] != s[|a| + j];
      }
    }
  }

  /** A visitable node forces every step of the visitor to be possible. */
  lemma VisitNeedsSteps(slots: seq<Option<Entry>>, id: nat, seen: set<nat>, entries: seq<Entry>, t: Tree)
    requires id != FREE_SECTOR && CanVisit(slots, id, seen, entries, t)
    ensures t.Node? && t.id == id && Visitable(slots, id, t.entry) && NodeSteps(slots, seen, entries, t)
  {
    var l, r := InOrder(t.left), InOrder(t.right);
    var e1 := entries + EntriesOf(t.left);
    DistinctSplit(l + [id], r);
    DistinctSplit(l, [id]);
    assert id in [id] && id in l + [id] && forall x :: x in l ==> x in l + [id];
    assert forall x :: x in InOrder(t) <==> x in l || x == id || x in r;
    assert entries + EntriesOf(t) == e1 + [t.entry] + EntriesOf(t.right);
    DistinctNamesPrefix(e1 + [t.entry], EntriesOf(t.right));
    DistinctNamesPrefix(e1, [t.entry]);
    assert (e1 + [t.entry])[|e1|] == t.entry;
    assert forall i :: 0 <= i < |e1| ==> (e1 + [t.entry])[i] == e1[i];
  }

  /** The visitor's steps mark exactly the node's ids, each once. */
  lemma StepsMark(slots: seq<Option<Entry>>, seen: set<nat>, entries: seq<Entry>, t: Tree)
    requires t.Node? && NodeSteps(slots, seen, entries, t)
    ensures Distinct(InOrder(t)) && forall i :: i in InOrder(t) ==> i !in seen
    ensures seen + Ids(t) == seen + {t.id} + Ids(t.left) + Ids(t.right)
  {
    var l, r := InOrder(t.left), InOrder(t.right);
    assert forall x :: x in l ==> x in Ids(t.left);
    DistinctConcat(l, [t.id]);
    assert forall x :: x in l + [t.id] ==> x in l || x == t.id;
    DistinctConcat(l + [t.id], r);
    assert forall x :: x in InOrder(t) <==> x in l || x == t.id || x in r;
  }

  lemma EntriesOfNode(entries: seq<Entry>, t: Tree)
    requires t.Node?
    ensures entries + EntriesOf(t) == entries + EntriesOf(t.left) + [t.entry] + EntriesOf(t.right)
  {
  }

  /** The visitor's steps together visit the node. */
  lemma StepsVisit(slots: seq<Option<Entry>>, seen: set<nat>, entries: seq<Entry>, t: Tree)
    requires t.Node? && Visitable(slots, t.id, t.entry) && NodeSteps(slots, seen, entries, t)
    ensures CanVisit(slots, t.id, seen, entries, t)
    ensures entries + EntriesOf(t) == entries + EntriesOf(t.left) + [t.entry] + EntriesOf(t.right)
    ensures seen + Ids(t) == seen + {t.id} + Ids(t.left) + Ids(t.right)
  {
    StepsMark(slots, seen, entries, t);
    EntriesOfNode(entries, t);
  }

  /** The recursive visitor with the state it fills: the ids seen and the entry map in insertion order. */
  class SiblingVisitor {
    const slots: seq<Option<Entry>>
    var seen: set<nat>
    var entries: seq<Entry>

    ghost predicate Valid()
      reads this
    {
      forall i :: i in seen ==> i < |slots|
    }

    constructor (slots: seq<Option<Entry>>)
      ensures Valid() && this.slots == slots && seen == {} && entries == []
    {
      this.slots := slots;
      seen, entries := {}, [];
    }

    /** Visits the left siblings, then `id`, then the right siblings. Succeeds exactly when the links from
        `id` form a finite tree whose ids are unseen and distinct and whose names are new and distinct;
        then the entries are appended in order. */
    method Visit(id: nat) returns (ok: bool, ghost t: Tree)
      requires Valid() && DistinctNames(entries)
      modifies this
      ensures Valid() && old(seen) <= seen
      ensures ok ==> CanVisit(slots, id, old(seen), old(entries), t)
                     && seen == old(seen) + Ids(t) && entries == old(entries) + EntriesOf(t)
      ensures !ok ==> forall u :: !CanVisit(slots, id, old(seen), old(entries), u)
      decreases |slots| - |seen|
    {
      if id == FREE_SECTOR {
        assert entries + EntriesOf(Leaf) == entries;
        return true, Leaf;
      }
      if id >= |slots| || id in seen {
        return false, Leaf;
      }
      var slot := slots[id];
      if slot == None || slot.value.kind == ROOT {
        return false, Leaf;
      }
      var entry := slot.value;
      ghost var seen0, entries0 := seen, entries;
      BoundedSize(seen + {id}, |slots|);
      seen := seen + {id};
      var leftOk, left := Visit(entry.leftSibling);
      if !leftOk || HasName(entries, entry.name) {
        forall u | CanVisit(slots, id, seen0, entries0, u)
          ensures false
        {
          VisitNeedsSteps(slots, id, seen0, entries0, u);
          if leftOk {
            TreeUnique(slots, entry.leftSibling, left, u.left);
          }
        }
        return false, Leaf;
      }
      entries := entries + [entry];
      BoundedSize(seen, |slots|);
      assert |seen0 + {id}| <= |seen| by { SubsetSize(seen0 + {id}, seen); }
      ghost var right;
      ok, right := Visit(entry.rightSibling);
      t := Node(left, id, entry, right);
      if ok {
        StepsVisit(slots, seen0, entries0, t);
      } else {
        forall u | CanVisit(slots, id, seen0, entries0, u)
          ensures false
        {
          VisitNeedsSteps(slots, id, seen0, entries0, u);
          TreeUnique(slots, entry.leftSibling, left, u.left);
        }
      }
    }
  }

  // ---- Entries linked to the right only ------------------------------------------------------

  /** Slots 1 to `n` hold entries, each linked to the next one on its right and to nothing on its left. */
  ghost predicate RightLinked(slots: seq<Option<Entry>>, n: nat) {
    && n < |slots| && n < FREE_SECTOR
    && forall k :: 1 <= k <= n ==>
         && slots[k].Some? && slots[k].value.kind != ROOT && slots[k].value.leftSibling == FREE_SECTOR
         && slots[k].value.rightSibling == NextSlot(k, n)
  }

  function NextSlot(k: nat, n: nat): nat {
    if k < n then k + 1 else FREE_SECTOR
  }

  /** The tree from slot `k` on. */
  ghost function RightTree(slots: seq<Option<Entry>>, n: nat, k: nat): Tree
    requires RightLinked(slots, n) && 1 <= k <= n + 1
    decreases n + 1 - k
  {
    if k == n + 1 then Leaf else Node(Leaf, k, slots[k].value, RightTree(slots, n, k + 1))
  }

  lemma {:induction false} RightTreeIsTree(slots: seq<Option<Entry>>, n: nat, k: nat)
    requires RightLinked(slots, n) && 1 <= k <= n + 1
    ensures IsTree(slots, NextSlot(k - 1, n), RightTree(slots, n, k))
    decreases n + 1 - k
  {
    if k <= n {
      RightTreeIsTree(slots, n, k + 1);
      assert IsTree(slots, FREE_SECTOR, Leaf);
    }
  }

  lemma {:induction false} RightTreeLists(slots: seq<Option<Entry>>, n: nat, k: nat)
    requires RightLinked(slots, n) && 1 <= k <= n + 1
    ensures |EntriesOf(RightTree(slots, n, k))| == n + 1 - k
    ensures forall i :: 0 <= i < n + 1 - k ==> EntriesOf(RightTree(slots, n, k))[i] == slots[k + i].value
    decreases n + 1 - k
  {
    if k <= n {
      RightTreeLists(slots, n, k + 1);
      assert EntriesOf(RightTree(slots, n, k)) == [slots[k].value] + EntriesOf(RightTree(slots, n, k + 1));
    }
  }

  lemma {:induction false} RightTreeCountsUp(slots: seq<Option<Entry>>, n: nat, k: nat)
    requires RightLinked(slots, n) && 1 <= k <= n + 1
    ensures |InOrder(RightTree(slots, n, k))| == n + 1 - k
    ensures forall i :: 0 <= i < n + 1 - k ==> InOrder(RightTree(slots, n, k))[i] == k + i
    decreases n + 1 - k
  {
    if k <= n {
      RightTreeCountsUp(slots, n, k + 1);
      assert InOrder(RightTree(slots, n, k)) == [k] + InOrder(RightTree(slots, n, k + 1));
    }
  }

  /** Such slots with distinct names are a whole tree: distinct ids and names, all entries in slot order. */
  lemma RightTreeIsWhole(slots: seq<Option<Entry>>, n: nat)
    requires RightLinked(slots, n)
    requires forall j, k :: 1 <= j < k <= n ==> slots[j].value.name != slots[k].value.name
    ensures var t := RightTree(slots, n, 1);
            && IsTree(slots, NextSlot(0, n), t) && Distinct(InOrder(t)) && DistinctNames(EntriesOf(t))
            && |EntriesOf(t)| == n && forall i :: 0 <= i < n ==> EntriesOf(t)[i] == slots[1 + i].value
  {
    RightTreeIsTree(slots, n, 1);
    RightTreeLists(slots, n, 1);
    RightTreeCountsUp(slots, n, 1);
  }
}
