/** The BK-tree as the program keeps it: node objects updated in place and a
    tree object that owns the root. Every method is proved to act on the
    tree's abstract value exactly as the functions of BKTreeSpec say. */
module BKTrees {
  import opened Levenshtein
  import opened BKTreeSpec

  /** One node: a word, a tombstone flag and a sparse map from distance to
      child node. `Repr` is the set of node objects of this subtree and
      `Model` the subtree as a value. */
  class BKNode {
    var word: string
    var deleted: bool
    var children: map<nat, BKNode>
    ghost var Repr: set<object>
    ghost var Model: Tree

    ghost predicate Valid()
      reads this, Repr
      decreases Repr
    {
      && this in Repr
      && Model.word == word && Model.deleted == deleted
      && Model.children.Keys == children.Keys
      && (forall k | k in children ::
            && children[k] in Repr && children[k].Repr <= Repr && this !in children[k].Repr
            && children[k].Valid() && Model.children[k] == children[k].Model)
      && (forall k, k' | k in children && k' in children && k != k' ::
            children[k].Repr !! children[k'].Repr)
    }

    /** The node's fields agree with its value. */
    lemma Agrees()
      requires Valid()
      ensures word == Model.word && deleted == Model.deleted
      ensures children.Keys == Model.children.Keys
    {
    }

    /** What the invariant says about one child. */
    lemma ChildValid(k: nat)
      requires Valid() && k in children
      ensures children[k].Valid() && children[k].Repr < Repr && this !in children[k].Repr
      ensures children[k].Model == Model.children[k]
    {
    }

    /** A new node is active and has no children. */
    constructor (w: string)
      ensures Valid() && fresh(Repr) && Model == Leaf(w)
    {
      word := w;
      children := map[];
      deleted := false;
      Repr := {this};
      Model := Leaf(w);
    }

    /** Inserts `w` into this subtree: an equal word is reactivated, any other
        word goes under the child at its distance from this node's word, or
        becomes a new leaf there. */
    method Insert(w: string)
      requires Valid()
      modifies Repr
      ensures Valid() && fresh(Repr - old(Repr))
      ensures Model == BKTreeSpec.Insert(old(Model), w)
      decreases Repr, 1
    {
      var distance := LevenshteinDistance(w, word);
      if distance == 0 {
        if deleted == true {
          SetDeleted(false);
        }
      } else if distance in children {
        InsertBelow(distance, w);
      } else {
        AddLeaf(distance, w);
      }
    }

    /** Inserts `w` into the existing child under key `distance`. */
    method InsertBelow(distance: nat, w: string)
      requires Valid() && distance in children
      modifies Repr
      ensures Valid() && fresh(Repr - old(Repr))
      ensures Model == old(Model).(children := old(Model.children)[distance := BKTreeSpec.Insert(old(Model.children[distance]), w)])
      decreases Repr, 0
    {
      var child := children[distance];
      ChildValid(distance);
      child.Insert(w);
      label Inserted:
      Repr := Repr + child.Repr;
      Model := Model.(children := Model.children[distance := child.Model]);
      Unchanged@Inserted(child);
      ChildReplaced(distance);
    }

    /** Hangs a new leaf holding `w` under the free key `distance`. */
    method AddLeaf(distance: nat, w: string)
      requires Valid() && distance !in children
      modifies this
      ensures Valid() && fresh(Repr - old(Repr))
      ensures Model == old(Model).(children := old(Model.children)[distance := Leaf(w)])
    {
      var child := new BKNode(w);
      label Created:
      children := children[distance := child];
      Repr := Repr + child.Repr;
      Model := Model.(children := Model.children[distance := child.Model]);
      Unchanged@Created(child);
      SiblingsKept(distance);
    }

    /** Appends to `results` the hits of this subtree. */
    method Search(q: string, maxDistance: nat, results: seq<Match>) returns (out: seq<Match>)
      requires Valid()
      ensures out == results + BKTreeSpec.Search(Model, q, maxDistance)
      decreases Repr
    {
      ghost var t := Model;
      Agrees();
      var distance := LevenshteinDistance(q, word);
      out := results;
      if distance <= maxDistance && !deleted {
        out := out + [Match(word, distance)];
      }
      var i: nat := Max(1, distance - maxDistance);
      var hi: nat := distance + maxDistance;
      ghost var total := results + BKTreeSpec.Search(t, q, maxDistance);
      assert out + SearchChildren(t, q, maxDistance, i, hi) == total by {
        SearchUnfold(t, q, maxDistance);
      }
      while i <= hi
        invariant i <= hi + 1
        invariant out + SearchChildren(t, q, maxDistance, i, hi) == total
        decreases hi + 1 - i
      {
        ghost var before := out;
        if i in children {
          ChildValid(i);
          out := children[i].Search(q, maxDistance, out);
        }
        SearchChildrenStep(t, q, maxDistance, i, hi, before, out, total);
        i := i + 1;
      }
    }

    /** Tombstones the node holding `w`, if there is one; the tree keeps its
        shape. */
    method Remove(w: string)
      requires Valid()
      modifies Repr
      ensures Valid() && Repr == old(Repr)
      ensures Model == BKTreeSpec.Remove(old(Model), w)
      decreases Repr, 1
    {
      var distance := LevenshteinDistance(w, word);
      if distance == 0 {
        SetDeleted(true);
      } else if distance in children {
        RemoveBelow(distance, w);
      }
    }

    /** Removes `w` from the child under key `distance`. */
    method RemoveBelow(distance: nat, w: string)
      requires Valid() && distance in children
      modifies Repr
      ensures Valid() && Repr == old(Repr)
      ensures Model == old(Model).(children := old(Model.children)[distance := BKTreeSpec.Remove(old(Model.children[distance]), w)])
      decreases Repr, 0
    {
      var child := children[distance];
      ChildValid(distance);
      child.Remove(w);
      label Removed:
      Model := Model.(children := Model.children[distance := child.Model]);
      Unchanged@Removed(child);
      ChildReplaced(distance);
    }

    /** The state after the child under key `d` was updated through its own
        methods, all other objects of this node untouched and this node's
        footprint and value brought up to date. */
    twostate predicate ChildUpdated(d: nat)
      reads this, Repr, children.Values
    {
      && old(Valid()) && d in old(children)
      && children == old(children) && word == old(word) && deleted == old(deleted)
      && Repr == old(Repr) + children[d].Repr
      && children[d].Valid() && this !in children[d].Repr
      && fresh(children[d].Repr - old(children[d].Repr))
      && unchanged(old(Repr) - old(children[d].Repr) - {this})
      && Model == old(Model).(children := old(Model.children)[d := children[d].Model])
    }

    /** Such a node is valid again. */
    twostate lemma ChildReplaced(d: nat)
      requires ChildUpdated(d)
      ensures Valid()
    {
      ChildrenStillValid(d);
      ReprsStillDisjoint(d);
    }

    twostate lemma ChildrenStillValid(d: nat)
      requires ChildUpdated(d)
      ensures forall k | k in children ::
        && children[k] in Repr && children[k].Repr <= Repr && this !in children[k].Repr
        && children[k].Valid() && Model.children[k] == children[k].Model
    {
      SiblingsKept(d);
    }

    /** The footprints of the children stay pairwise disjoint when the child
        under key `d` only grows by fresh objects. */
    twostate lemma ReprsStillDisjoint(d: nat)
      requires ChildUpdated(d)
      ensures forall k, k' | k in children && k' in children && k != k' ::
        children[k].Repr !! children[k'].Repr
    {
      SiblingsKept(d);
      forall k, k' | k in children && k' in children && k != k'
        ensures children[k].Repr !! children[k'].Repr
      {
        assert old(children[k].Repr !! children[k'].Repr);
      }
    }

    /** While only `this` and the objects of the child under key `d` (if any)
        change, every other child keeps its invariant, footprint and value. */
    twostate lemma SiblingsKept(d: nat)
      requires old(Valid())
      requires unchanged(old(Repr) - (if d in old(children) then old(children[d].Repr) else {}) - {this})
      ensures forall k | k in old(children) && k != d ::
        && old(children[k]).Valid()
        && old(children[k]).Repr == old(children[k].Repr)
        && old(children[k]).Model == old(children[k].Model)
    {
      forall k | k in old(children) && k != d
        ensures old(children[k]).Valid()
        ensures old(children[k]).Repr == old(children[k].Repr)
        ensures old(children[k]).Model == old(children[k].Model)
      {
        Unchanged(old(children[k]));
      }
    }

    /** Sets this node's tombstone flag; nothing below it changes. */
    method SetDeleted(b: bool)
      requires Valid()
      modifies this
      ensures Valid() && Repr == old(Repr) && children == old(children)
      ensures Model == old(Model).(deleted := b)
    {
      deleted := b;
      Model := Model.(deleted := b);
      forall k | k in children
        ensures children[k].Valid() && children[k].Model == old(children[k].Model)
      {
        Unchanged(children[k]);
      }
    }
  }

  /** A node none of whose objects changed keeps its invariant, its footprint
      and its value. */
  twostate lemma Unchanged(n: BKNode)
    requires old(n.Valid()) && unchanged(old(n.Repr))
    ensures n.Valid() && n.Repr == old(n.Repr) && n.Model == old(n.Model)
  {
  }

  /** The tree: an optional root node. `Model` is the whole tree as a value,
      `None` while the tree is empty, and the tree keeps the child-key
      invariant at all times. */
  class BKTree {
    var root: BKNode?
    ghost var Repr: set<object>
    ghost var Model: Option<Tree>

    ghost predicate Valid()
      reads this, Repr
    {
      && this in Repr
      && (root == null <==> Model == None)
      && (root != null ==>
            && root in Repr && root.Repr <= Repr && this !in root.Repr
            && root.Valid() && Model == Some(root.Model) && Keyed(root.Model))
    }

    /** A new tree is empty. */
    constructor ()
      ensures Valid() && fresh(Repr) && Model == None
    {
      root := null;
      Repr := {this};
      Model := None;
    }

    /** The first word becomes the root; later words go through the root. */
    method Insert(word: string)
      requires Valid()
      modifies Repr
      ensures Valid() && fresh(Repr - old(Repr))
      ensures Model == Some(InsertRoot(old(Model), word))
    {
      if root == null {
        root := new BKNode(word);
        Repr := Repr + root.Repr;
        Model := Some(root.Model);
      } else {
        InsertKeyed(root.Model, word);
        root.Insert(word);
        label Inserted:
        Repr := Repr + root.Repr;
        Model := Some(root.Model);
        Unchanged@Inserted(root);
      }
    }

    /** The hits of a search: empty for an empty tree, otherwise the root's
        hits. Each active word within `maxDistance` of `word` is reported
        exactly once, with its distance, and nothing else is. */
    method Search(word: string, maxDistance: nat) returns (results: seq<Match>)
      requires Valid()
      ensures results == SearchRoot(Model, word, maxDistance)
      ensures forall m :: m in results <==>
        && Model.Some? && m.word in ActiveWords(Model.value)
        && m.distance == Lev(word, m.word) && m.distance <= maxDistance
      ensures DistinctWords(results)
    {
      results := [];
      if root != null {
        results := root.Search(word, maxDistance, results);
        SearchHits(root.Model, word, maxDistance);
      }
    }

    /** Tombstones `word` if the tree holds it; an empty tree stays empty. */
    method Remove(word: string)
      requires Valid()
      modifies Repr
      ensures Valid() && Repr == old(Repr)
      ensures Model == RemoveRoot(old(Model), word)
    {
      if root != null {
        RemoveKeyed(root.Model, word);
        root.Remove(word);
        label Removed:
        Model := Some(root.Model);
        Unchanged@Removed(root);
      }
    }

    /** The export of the subtree below `node`, hanging under key `distance`:
        its word, that key, its children's exports in ascending key order and
        its tombstone flag. */
    static method BuildTreeData(node: BKNode, distance: nat) returns (data: TreeData)
      requires node.Valid()
      ensures data == Export(node.Model, distance)
      ensures Rebuild(data) == node.Model
      decreases node.Repr, 1
    {
      var keys := SortedKeys(node.children.Keys);
      node.Agrees();
      var children := BuildChildren(node, keys);
      data := TreeData(node.word, distance, children, node.deleted);
      ExportRoundTrip(node.Model, distance);
    }

    /** The exports of the children of `node` under `keys`, in that order. */
    static method BuildChildren(node: BKNode, keys: seq<nat>) returns (children: seq<TreeData>)
      requires node.Valid() && forall k | k in keys :: k in node.Model.children
      ensures children == ExportChildren(node.Model, keys)
      decreases node.Repr, 0
    {
      ghost var t := node.Model;
      node.Agrees();
      children := [];
      for i := 0 to |keys|
        invariant children == ExportChildren(t, keys[..i])
      {
        var key := keys[i];
        node.ChildValid(key);
        var child := BuildTreeData(node.children[key], key);
        ExportChildrenStep(t, keys, i);
        children := children + [child];
      }
      assert keys[..|keys|] == keys;
    }
  }
}
