/** The ordered index of station names: an unbalanced binary search tree keyed
    by name (`StationBST`), with the network's removal helpers `removeNode` and
    `minValueNode`. The source rewires tree nodes in place; here a tree is a
    value and each operation returns the rewired tree. */
module StationIndex {
  import opened Names

  datatype Tree = Leaf | Node(left: Tree, name: string, right: Tree)

  /** The set of names stored in a tree. */
  function Keys(t: Tree): set<string>
  {
    match t
    case Leaf => {}
    case Node(l, k, r) => Keys(l) + {k} + Keys(r)
  }

  /** The search-tree ordering: every name on the left sorts before the node's
      name, every name on the right after it. */
  ghost predicate IsBST(t: Tree)
  {
    match t
    case Leaf => true
    case Node(l, k, r) =>
      IsBST(l) && IsBST(r) &&
      (forall x :: x in Keys(l) ==> Below(x, k)) &&
      (forall x :: x in Keys(r) ==> Below(k, x))
  }

  /** Strictly ascending, hence also free of repetitions. */
  ghost predicate Ascending(s: seq<string>)
  {
    forall i, j :: 0 <= i < j < |s| ==> Below(s[i], s[j])
  }

  /** `inorderRec`: left subtree, the node's name, right subtree. */
  function InOrder(t: Tree): (r: seq<string>)
    ensures forall x :: x in r <==> x in Keys(t)
  {
    match t
    case Leaf => []
    case Node(l, k, r) => InOrder(l) + [k] + InOrder(r)
  }

  /** `insertRec`: descend by comparison; an exact duplicate is ignored. */
  function InsertRec(t: Tree, name: string): (r: Tree)
    ensures r.Node? && name in Keys(r)
  {
    match t
    case Leaf => Node(Leaf, name, Leaf)
    case Node(l, k, r) =>
      if Below(name, k) then Node(InsertRec(l, name), k, r)
      else if Below(k, name) then Node(l, k, InsertRec(r, name))
      else BelowTotal(name, k); t
  }

  /** The leftmost name of a non-empty tree: what `minValueNode` walks to. */
  function TreeMin(t: Tree): (m: string)
    requires t.Node?
    ensures m in Keys(t)
  {
    if t.left == Leaf then t.name else TreeMin(t.left)
  }

  /** `removeNode`: descend by comparison; at the name itself, a node with at
      most one child is replaced by that child, and a node with two children
      takes the name of its in-order successor (the least name on the right),
      which is then removed from the right subtree. */
  function RemoveNode(t: Tree, name: string): (r: Tree)
    ensures Keys(r) <= Keys(t)
  {
    match t
    case Leaf => Leaf
    case Node(l, k, r) =>
      if Below(name, k) then Node(RemoveNode(l, name), k, r)
      else if Below(k, name) then Node(l, k, RemoveNode(r, name))
      else if l == Leaf then r
      else if r == Leaf then l
      else
        var m := TreeMin(r);
        Node(l, m, RemoveNode(r, m))
  }

  /** `minValueNode`: follow left children from the root to the node with no
      left child; in a search tree that node holds the least name. */
  method MinValueNode(root: Tree) returns (node: Tree)
    requires root.Node?
    ensures node.Node? && node.left == Leaf
    ensures node.name == TreeMin(root) && node.name in Keys(root)
    ensures IsBST(root) ==> forall x :: x in Keys(root) ==> x == node.name || Below(node.name, x)
  {
    var current := root;
    while current.left != Leaf
      invariant current.Node?
      invariant TreeMin(current) == TreeMin(root)
      decreases current
    {
      current := current.left;
    }
    node := current;
    if IsBST(root) {
      TreeMinLeast(root);
    }
  }

  lemma {:induction false} TreeMinLeast(t: Tree)
    requires t.Node? && IsBST(t)
    ensures forall x :: x in Keys(t) ==> x == TreeMin(t) || Below(TreeMin(t), x)
  {
    if t.left != Leaf {
      TreeMinLeast(t.left);
      forall x | x in Keys(t)
        ensures x == TreeMin(t) || Below(TreeMin(t), x)
      {
        if x in Keys(t.right) {
          BelowTransitive(TreeMin(t.left), t.name, x);
        }
      }
    }
  }

  /** Inserting adds exactly the given name and keeps the ordering; inserting a
      name already present returns the tree unchanged. */
  lemma {:induction false} InsertRecCorrect(t: Tree, name: string)
    ensures Keys(InsertRec(t, name)) == Keys(t) + {name}
    ensures IsBST(t) ==> IsBST(InsertRec(t, name))
    ensures IsBST(t) && name in Keys(t) ==> InsertRec(t, name) == t
  {
    match t
    case Leaf =>
    case Node(l, k, r) =>
      BelowTotal(name, k);
      BelowStrict(name, k);
      if Below(name, k) {
        InsertRecCorrect(l, name);
        if IsBST(t) && name in Keys(t) {
          forall x | x in Keys(r) ensures x != name { BelowTransitive(name, k, x); BelowStrict(x, x); }
        }
      } else if Below(k, name) {
        InsertRecCorrect(r, name);
        if IsBST(t) && name in Keys(t) {
          forall x | x in Keys(l) ensures x != name { BelowTransitive(x, k, name); BelowStrict(x, x); }
        }
      }
  }

  /** Removing takes out exactly the given name and keeps the ordering. */
  lemma {:induction false} RemoveNodeCorrect(t: Tree, name: string)
    requires IsBST(t)
    ensures IsBST(RemoveNode(t, name))
    ensures Keys(RemoveNode(t, name)) == Keys(t) - {name}
  {
    match t
    case Leaf =>
    case Node(l, k, r) =>
      BelowTotal(name, k);
      BelowStrict(name, k);
      if Below(name, k) {
        RemoveNodeCorrect(l, name);
        forall x | x in Keys(r) ensures x != name { BelowTransitive(name, k, x); BelowStrict(x, x); }
      } else if Below(k, name) {
        RemoveNodeCorrect(r, name);
        forall x | x in Keys(l) ensures x != name { BelowTransitive(x, k, name); BelowStrict(x, x); }
      } else {
        assert k !in Keys(l) && k !in Keys(r) by { BelowStrict(k, k); }
        if l != Leaf && r != Leaf {
          var m := TreeMin(r);
          TreeMinLeast(r);
          RemoveNodeCorrect(r, m);
          forall x | x in Keys(l) ensures Below(x, m) { BelowTransitive(x, k, m); }
        }
      }
  }

  /** Removing a name that is not stored leaves the tree as it was. */
  lemma {:induction false} RemoveNodeAbsent(t: Tree, name: string)
    requires name !in Keys(t)
    ensures RemoveNode(t, name) == t
  {
    match t
    case Leaf =>
    case Node(l, k, r) =>
      BelowTotal(name, k);
      if Below(name, k) {
        RemoveNodeAbsent(l, name);
      } else if Below(k, name) {
        RemoveNodeAbsent(r, name);
      }
  }

  /** The in-order listing of a search tree is strictly ascending and lists
      exactly its names. */
  lemma {:induction false} InOrderSorted(t: Tree)
    requires IsBST(t)
    ensures Ascending(InOrder(t))
    ensures forall x :: x in InOrder(t) <==> x in Keys(t)
  {
    match t
    case Leaf =>
    case Node(l, k, r) =>
      InOrderSorted(l);
      InOrderSorted(r);
      var s := InOrder(t);
      var sl, sr := InOrder(l), InOrder(r);
      assert s == sl + [k] + sr;
      forall i, j | 0 <= i < j < |s| ensures Below(s[i], s[j]) {
        if j < |sl| {
        } else if i < |sl| && j == |sl| {
          assert s[i] == sl[i];
        } else if i < |sl| {
          assert s[i] == sl[i] && s[j] == sr[j - |sl| - 1];
          BelowTransitive(s[i], k, s[j]);
        } else if i == |sl| {
          assert s[j] == sr[j - |sl| - 1];
        } else {
          assert s[i] == sr[i - |sl| - 1] && s[j] == sr[j - |sl| - 1];
        }
      }
  }

  /** Two strictly ascending listings of the same names are the same listing. */
  lemma {:induction false} AscendingUnique(s: seq<string>, u: seq<string>)
    requires Ascending(s) && Ascending(u)
    requires forall x :: x in s <==> x in u
    ensures s == u
    decreases |s|
  {
    assert s != [] ==> s[0] in u;
    assert u != [] ==> u[0] in s;
    if s != [] {
      var i :| 0 <= i < |u| && u[i] == s[0];
      var j :| 0 <= j < |s| && s[j] == u[0];
      assert i == 0 || Below(u[0], s[0]);
      assert j == 0 || Below(s[0], u[0]);
      BelowStrict(s[0], u[0]);
      assert s[0] == u[0];
      forall x ensures x in s[1..] <==> x in u[1..] {
        BelowStrict(s[0], x);
        assert x in s[1..] ==> x in s && x != s[0];
        assert x in u[1..] ==> x in u && x != u[0];
        assert x in s && x != s[0] ==> x in s[1..];
        assert x in u && x != u[0] ==> x in u[1..];
      }
      AscendingUnique(s[1..], u[1..]);
      assert s == [s[0]] + s[1..] && u == [u[0]] + u[1..];
    }
  }

  /** The listing depends only on which names are stored, not on the order in
      which they were inserted or removed. */
  lemma ListingCanonical(t: Tree, t': Tree)
    requires IsBST(t) && IsBST(t') && Keys(t) == Keys(t')
    ensures InOrder(t) == InOrder(t')
  {
    InOrderSorted(t);
    InOrderSorted(t');
    AscendingUnique(InOrder(t), InOrder(t'));
  }

  /** Inserting D, B, A, C lists A, B, C, D. */
  lemma ListingExample()
    ensures InOrder(InsertRec(InsertRec(InsertRec(InsertRec(Leaf, "D"), "B"), "A"), "C")) == ["A", "B", "C", "D"]
  {
  }
}
