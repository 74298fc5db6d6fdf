/** The linked nodes of fs.c, refining the tree of FsSpec. */
module FileSystem {
  import opened FsSpec
  import opened Prelude

  /** `fs_node_t`, without owner, times and hooks. */
  class FsNode {
    const name: string
    const kind: Kind
    var parent: FsNode?
    var next: FsNode?
    var children: FsNode?
    var symlinkTarget: FsNode?

    var mask: bv32
    var contents: Option<seq<byte>>
    var length: nat

    constructor (name: string, kind: Kind)
      ensures this.name == name && this.kind == kind
      ensures parent == null && next == null && children == null && symlinkTarget == null
      ensures mask == 1 && contents == None && length == 0
    {
      this.name := name;
      this.kind := kind;
      parent, next, children, symlinkTarget := null, null, null, null;
      mask, contents, length := 1, None, 0;
    }
  }

  /** The node at place i of a chain, or null behind its end. */
  ghost function At(chain: seq<FsNode>, i: nat): FsNode? {
    if i < |chain| then chain[i] else null
  }

  ghost function OrNull(n: Option<FsNode>): FsNode? {
    if n.Some? then n.value else null
  }

  /** The next fields link these nodes in this order. */
  ghost predicate Linked(chain: seq<FsNode>)
    reads chain`next
  {
    forall i | 0 <= i < |chain| :: chain[i].next == At(chain, i + 1)
  }

  /** The fields of n say what the tree says. */
  ghost predicate Shows(n: FsNode, node: Node<FsNode>)
    reads n`parent, n`children, n`symlinkTarget
  {
    && n.name == node.name && n.kind == node.kind
    && n.parent == OrNull(node.parent)
    && n.children == At(node.children, 0)
    && n.symlinkTarget == OrNull(node.target)
  }

  /** A node on the chain of p is on no other. */
  lemma ChainsAreApart<N>(t: Tree<N>, p: N)
    requires WellFormed(t) && p in t.nodes
    ensures forall q, d | q in t.nodes && q != p && d in t.nodes[q].children :: d !in t.nodes[p].children
  {
    forall q, d | q in t.nodes && q != p && d in t.nodes[q].children
      ensures d !in t.nodes[p].children
    {
      assert d in t.nodes[q].children <==> t.nodes[d].parent == Some(q);
      assert d in t.nodes[p].children <==> t.nodes[d].parent == Some(p);
    }
  }

  ghost predicate Mirrored(t: Tree<FsNode>)
    reads t.nodes.Keys`parent, t.nodes.Keys`children, t.nodes.Keys`symlinkTarget
  {
    forall n | n in t.nodes :: Shows(n, t.nodes[n])
  }

  ghost predicate Chained(t: Tree<FsNode>)
    requires t.Closed()
    reads t.nodes.Keys`next
  {
    forall n | n in t.nodes :: Linked(t.nodes[n].children)
  }

  /** A node without a parent is on no chain. */
  ghost predicate DetachedAlone(t: Tree<FsNode>)
    reads t.nodes.Keys`next
  {
    forall n | n in t.nodes && t.nodes[n].parent.None? :: n.next == null
  }

  ghost predicate NoneInItself(t: Tree<FsNode>) {
    forall n | n in t.nodes :: t.nodes[n].parent != Some(n)
  }

  // What a change to the chain of p and the parent of c leaves as it was

  ghost predicate MirroredBut(t: Tree<FsNode>, p: FsNode, c: FsNode)
    reads (t.nodes.Keys - {c})`parent, (t.nodes.Keys - {p})`children, t.nodes.Keys`symlinkTarget
  {
    forall n | n in t.nodes ::
      && n.name == t.nodes[n].name && n.kind == t.nodes[n].kind && n.symlinkTarget == OrNull(t.nodes[n].target)
      && (n != c ==> n.parent == OrNull(t.nodes[n].parent))
      && (n != p ==> n.children == At(t.nodes[n].children, 0))
  }

  ghost function OffChain(t: Tree<FsNode>, p: FsNode): (off: set<FsNode>)
    requires p in t.nodes
    ensures off <= t.nodes.Keys && forall n | n in off :: n !in t.nodes[p].children
  {
    t.nodes.Keys - set d | d in t.nodes[p].children
  }

  ghost predicate ChainedBut(t: Tree<FsNode>, p: FsNode)
    requires WellFormed(t) && p in t.nodes
    reads OffChain(t, p)`next
  {
    ChainsAreApart(t, p);
    && (forall q | q in t.nodes && q != p :: Linked(t.nodes[q].children))
    && (forall n | n in OffChain(t, p) && t.nodes[n].parent.None? :: n.next == null)
  }

  lemma BeforeChange(t: Tree<FsNode>, p: FsNode, c: FsNode)
    requires WellFormed(t) && p in t.nodes && c in t.nodes
    requires Mirrored(t) && Chained(t) && DetachedAlone(t)
    ensures MirroredBut(t, p, c) && ChainedBut(t, p)
    ensures p.children == At(t.nodes[p].children, 0) && c.parent == OrNull(t.nodes[c].parent)
    ensures Linked(t.nodes[p].children) && (t.nodes[c].parent.None? ==> c.next == null)
    ensures (forall d | d in t.nodes[p].children :: d in t.nodes) && p.kind == t.nodes[p].kind
    ensures Distinct(t.nodes[p].children)
  {
    ChildrenHaveParent(t, p);
    assert Distinct(t.nodes[p].children);
    hide Linked, WellFormed, Distinct;
    assert Shows(p, t.nodes[p]) && Shows(c, t.nodes[c]);
  }

  lemma BeforeAddition(t: Tree<FsNode>, p: FsNode, c: FsNode)
    requires WellFormed(t) && NoneInItself(t) && p in t.nodes && c in t.nodes
    requires p != c && t.nodes[c].parent.None? && t.nodes[p].kind == Directory
    ensures c !in t.nodes[p].children
    ensures t.Add(p, c).root == t.root && WellFormed(t.Add(p, c)) && NoneInItself(t.Add(p, c))
  {
    hide WellFormed, NoneInItself;
    AddKeepsShape(t, p, c);
    AddNoneInItself(t, p, c);
    ChildrenHaveParent(t, p);
  }

  lemma AddNoneInItself(t: Tree<FsNode>, p: FsNode, c: FsNode)
    requires NoneInItself(t) && p in t.nodes && c in t.nodes && p != c
    ensures NoneInItself(t.Add(p, c))
  {
  }

  lemma ChildrenHaveParent(t: Tree<FsNode>, p: FsNode)
    requires WellFormed(t) && p in t.nodes
    ensures forall d | d in t.nodes[p].children :: d in t.nodes && t.nodes[d].parent == Some(p)
  {
  }

  lemma MirrorOf(t: Tree<FsNode>, n: FsNode)
    requires Mirrored(t) && n in t.nodes
    ensures Shows(n, t.nodes[n])
  {
  }

  lemma ChainOf(t: Tree<FsNode>, n: FsNode)
    requires WellFormed(t) && Mirrored(t) && Chained(t) && n in t.nodes
    ensures n.kind == t.nodes[n].kind && n.children == At(t.nodes[n].children, 0) && Linked(t.nodes[n].children)
    ensures forall d | d in t.nodes[n].children :: d in t.nodes && d.name == t.nodes[d].name
  {
    ChildrenHaveParent(t, n);
    hide WellFormed, Linked, Tree.Closed;
    assert Shows(n, t.nodes[n]) && forall d | d in t.nodes[n].children :: Shows(d, t.nodes[d]);
  }

  lemma ClosedOf(t: Tree<FsNode>)
    requires WellFormed(t)
    ensures t.Closed() && t.root in t.nodes
  {
  }

  lemma BeforeRemoval(t: Tree<FsNode>, p: FsNode, k: nat)
    requires WellFormed(t) && NoneInItself(t) && p in t.nodes && k < |t.nodes[p].children|
    ensures var c := t.nodes[p].children[k];
      && c in t.nodes && c != p && t.nodes[c].parent == Some(p)
      && Remove(t, p, k).root == t.root && WellFormed(Remove(t, p, k)) && NoneInItself(Remove(t, p, k))
  {
    ChildrenHaveParent(t, p);
    hide WellFormed, NoneInItself;
    assert t.nodes[p].children[k] in t.nodes[p].children;
    NotAmongItsChildren(t, p);
    RemoveKeepsShape(t, p, k);
    RemoveNoneInItself(t, p, k);
  }

  lemma NotAmongItsChildren(t: Tree<FsNode>, p: FsNode)
    requires WellFormed(t) && NoneInItself(t) && p in t.nodes
    ensures p !in t.nodes[p].children
  {
    ChildrenHaveParent(t, p);
  }

  lemma RemoveNoneInItself(t: Tree<FsNode>, p: FsNode, k: nat)
    requires NoneInItself(t) && p in t.nodes && k < |t.nodes[p].children|
    requires t.nodes[p].children[k] in t.nodes && t.nodes[p].children[k] != p
    ensures NoneInItself(Remove(t, p, k)) && Remove(t, p, k).root == t.root
  {
    RemoveIs(t, p, k);
    hide Remove, Without;
  }

  lemma AtWithout(chain: seq<FsNode>, k: nat, i: nat)
    requires k < |chain|
    ensures At(Without(chain, k), i) == At(chain, if i < k then i else i + 1)
  {
    WithoutAt(chain, k, i);
  }

  lemma LinkedWithout(chain: seq<FsNode>, k: nat)
    requires k < |chain|
    requires forall i | 0 <= i < |chain| && i != k - 1 && i != k :: chain[i].next == At(chain, i + 1)
    requires k > 0 ==> chain[k - 1].next == At(chain, k + 1)
    ensures Linked(Without(chain, k))
  {
    hide At, Without;
    var rest := Without(chain, k);
    WithoutAt(chain, k, 0);
    forall i | 0 <= i < |rest|
      ensures rest[i].next == At(rest, i + 1)
    {
      WithoutAt(chain, k, i);
      AtWithout(chain, k, i + 1);
    }
  }

  lemma MirrorsAddition(t: Tree<FsNode>, p: FsNode, c: FsNode)
    requires p in t.nodes && c in t.nodes && p != c && p.kind == Directory
    requires MirroredBut(t, p, c)
    requires c.parent == p && p.children == At(t.nodes[p].children + [c], 0)
    ensures Mirrored(t.Add(p, c))
  {
    AddIs(t, p, c);
    hide Tree.Add, At;
  }

  lemma ChainsAddition(t: Tree<FsNode>, p: FsNode, c: FsNode)
    requires WellFormed(t) && p in t.nodes && c in t.nodes && p != c && t.nodes[p].kind == Directory
    requires ChainedBut(t, p) && Linked(t.nodes[p].children + [c])
    ensures t.Add(p, c).Closed() && Chained(t.Add(p, c)) && DetachedAlone(t.Add(p, c))
  {
    hide Linked, ChainedBut, OffChain, Chained, DetachedAlone;
    AddsChain(t, p, c);
    AddsDetached(t, p, c);
  }

  lemma AddsChain(t: Tree<FsNode>, p: FsNode, c: FsNode)
    requires WellFormed(t) && p in t.nodes && c in t.nodes && p != c && t.nodes[p].kind == Directory
    requires ChainedBut(t, p) && Linked(t.nodes[p].children + [c])
    ensures t.Add(p, c).Closed() && Chained(t.Add(p, c))
  {
    AddIs(t, p, c);
    assert t.Add(p, c).Closed();
    hide Tree.Add, Linked, WellFormed, Tree.Closed, OffChain;
  }

  lemma AddsDetached(t: Tree<FsNode>, p: FsNode, c: FsNode)
    requires WellFormed(t) && p in t.nodes && c in t.nodes && p != c && t.nodes[p].kind == Directory
    requires ChainedBut(t, p)
    ensures DetachedAlone(t.Add(p, c))
  {
    ChildrenHaveParent(t, p);
    AddIs(t, p, c);
    hide Tree.Add, Linked, WellFormed, Tree.Closed;
  }

  lemma MirrorsRemoval(t: Tree<FsNode>, p: FsNode, k: nat)
    requires p in t.nodes && k < |t.nodes[p].children|
    requires t.nodes[p].children[k] in t.nodes && t.nodes[p].children[k] != p
    requires var c := t.nodes[p].children[k];
      MirroredBut(t, p, c) && c.parent == null && p.children == At(Without(t.nodes[p].children, k), 0)
    ensures Mirrored(Remove(t, p, k))
  {
    RemoveIs(t, p, k);
    hide Remove, At, Without;
  }

  lemma ChainsRemoval(t: Tree<FsNode>, p: FsNode, k: nat)
    requires WellFormed(t) && p in t.nodes && k < |t.nodes[p].children|
    requires t.nodes[p].children[k] in t.nodes && t.nodes[p].children[k] != p
    requires ChainedBut(t, p) && Linked(Without(t.nodes[p].children, k)) && t.nodes[p].children[k].next == null
    ensures Remove(t, p, k).Closed() && Chained(Remove(t, p, k)) && DetachedAlone(Remove(t, p, k))
  {
    hide Linked, Without, ChainedBut, OffChain, Chained, DetachedAlone;
    RemovesChain(t, p, k);
    RemovesDetached(t, p, k);
  }

  lemma RemovesChain(t: Tree<FsNode>, p: FsNode, k: nat)
    requires WellFormed(t) && p in t.nodes && k < |t.nodes[p].children|
    requires t.nodes[p].children[k] in t.nodes && t.nodes[p].children[k] != p
    requires ChainedBut(t, p) && Linked(Without(t.nodes[p].children, k))
    ensures Remove(t, p, k).Closed() && Chained(Remove(t, p, k))
  {
    RemoveKeepsClosed(t, p, k);
    RemoveIs(t, p, k);
    hide Remove, Linked, Without, WellFormed, Tree.Closed, OffChain;
  }

  lemma RemovesDetached(t: Tree<FsNode>, p: FsNode, k: nat)
    requires WellFormed(t) && p in t.nodes && k < |t.nodes[p].children|
    requires t.nodes[p].children[k] in t.nodes && t.nodes[p].children[k] != p
    requires ChainedBut(t, p) && t.nodes[p].children[k].next == null
    ensures DetachedAlone(Remove(t, p, k))
  {
    ChildrenHaveParent(t, p);
    RemoveIs(t, p, k);
    hide Remove, Linked, Without, WellFormed, Tree.Closed;
  }

  lemma MirrorsNew(t: Tree<FsNode>, c: FsNode, target: Option<FsNode>)
    requires c !in t.nodes && Mirrored(t)
    requires c.parent == null && c.children == null && c.symlinkTarget == OrNull(target)
    ensures Mirrored(t.WithNode(c, c.name, c.kind, target))
  {
    WithNodeIs(t, c, c.name, c.kind, target);
    hide Tree.WithNode;
  }

  lemma ChainsNew(t: Tree<FsNode>, c: FsNode, target: Option<FsNode>)
    requires c !in t.nodes && t.Closed() && (target.Some? ==> target.value in t.nodes)
    requires Chained(t) && DetachedAlone(t) && NoneInItself(t) && c.next == null
    ensures var t' := t.WithNode(c, c.name, c.kind, target);
      t'.Closed() && Chained(t') && DetachedAlone(t') && NoneInItself(t')
  {
    WithNodeIs(t, c, c.name, c.kind, target);
    assert Linked([]);
    hide Tree.WithNode, Linked, Tree.Closed;
  }

  /** A new node with null fields joins the tree. */
  lemma MirrorsCreation(t: Tree<FsNode>, c: FsNode, target: Option<FsNode>)
    requires WellFormed(t) && c !in t.nodes && (target.Some? ==> target.value in t.nodes)
    requires c.parent == null && c.children == null && c.symlinkTarget == OrNull(target) && c.next == null
    requires Mirrored(t) && Chained(t) && DetachedAlone(t) && NoneInItself(t)
    ensures var t' := t.WithNode(c, c.name, c.kind, target);
      && t'.root == t.root && WellFormed(t') && t'.Closed()
      && Mirrored(t') && Chained(t') && DetachedAlone(t') && NoneInItself(t')
  {
    CreateKeepsShape(t, c, c.name, c.kind, target);
    hide Mirrored, Chained, DetachedAlone, NoneInItself, ParentsAgree, Distinct;
    MirrorsNew(t, c, target);
    ChainsNew(t, c, target);
  }

  lemma MirrorsRoot(root: FsNode)
    requires root.name == "/" && root.kind == Directory
    requires root.parent == null && root.children == null && root.symlinkTarget == null && root.next == null
    ensures var t := RootOnly<FsNode>(root);
      && t.root == root && WellFormed(t) && t.Closed()
      && Mirrored(t) && Chained(t) && DetachedAlone(t) && NoneInItself(t)
  {
  }

  class FileSystem {
    const root: FsNode
    ghost var tree: Tree<FsNode>

    ghost predicate Valid()
      reads this, tree.nodes.Keys`parent, tree.nodes.Keys`next, tree.nodes.Keys`children, tree.nodes.Keys`symlinkTarget
    {
      && tree.root == root && WellFormed(tree)
      && Mirrored(tree) && Chained(tree) && DetachedAlone(tree) && NoneInItself(tree)
    }

    /** `fs_init`. */
    constructor ()
      ensures Valid() && fresh(root) && tree == RootOnly<FsNode>(root)
      ensures root.name == "/" && root.kind == Directory && root.children == null && root.parent == null
      ensures root.mask == 3 && root.contents == None && root.length == 0
    {
      hide WellFormed, Mirrored, Chained, DetachedAlone, NoneInItself, RootOnly, Tree.Closed;
      var node := new FsNode("/", Directory);
      node.mask := 3;
      root := node;
      tree := RootOnly<FsNode>(node);
      new;
      MirrorsRoot(root);
    }

    /** The copying of a name or path up to a length. */
    static method CopyPrefix(text: string, limit: nat) returns (copy: string)
      ensures copy == if |text| <= limit then text else text[..limit]
    {
      copy := [];
      var i := 0;
      while i < |text| && i < limit
        invariant 0 <= i <= |text| && i <= limit && copy == text[..i]
      {
        copy := copy + [text[i]];
        i := i + 1;
      }
    }

    /** `fs_create_node`. */
    method CreateNode(name: string, kind: Kind) returns (node: FsNode)
      requires Valid()
      modifies `tree
      ensures Valid() && fresh(node) && node.mask == 1 && node.contents == None && node.length == 0
      ensures node.name == StoredName(name) == name[..if |name| < 127 then |name| else 127] && node.kind == kind
      ensures node.parent == null && node.children == null && node.symlinkTarget == null && node.next == null
      ensures tree == old(tree).WithNode(node, StoredName(name), kind, None)
    {
      hide WellFormed, Linked, Mirrored, Chained, DetachedAlone, NoneInItself, Tree.WithNode, Tree.Closed;
      var stored := CopyPrefix(name, 127);
      node := new FsNode(stored, kind);
      MirrorsCreation(tree, node, None);
      tree := tree.WithNode(node, stored, kind, None);
    }

    /** `fs_create_symlink`. */
    method CreateSymlink(name: string, target: FsNode?) returns (link: FsNode?)
      requires Valid() && (target != null ==> target in tree.nodes)
      modifies `tree
      ensures Valid() && (link == null <==> target == null)
      ensures target == null ==> tree == old(tree)
      ensures target != null ==>
        && fresh(link) && tree == old(tree).WithNode(link, StoredName(name), Symlink, Some(target))
        && link.kind == Symlink && link.symlinkTarget == target && link.name == StoredName(name)
    {
      if target == null {
        return null;
      }
      link := CreateLink(name, target);
    }

    method CreateLink(name: string, target: FsNode) returns (link: FsNode)
      requires Valid() && target in tree.nodes
      modifies `tree
      ensures Valid() && fresh(link) && tree == old(tree).WithNode(link, StoredName(name), Symlink, Some(target))
      ensures link.kind == Symlink && link.symlinkTarget == target && link.name == StoredName(name)
    {
      hide WellFormed, Linked, Mirrored, Chained, DetachedAlone, NoneInItself, Tree.WithNode, Tree.Closed, StoredName;
      ghost var before := tree;
      link := CreateNode(name, Symlink);
      link.symlinkTarget := target;
      MirrorsCreation(before, link, Some(target));
      tree := before.WithNode(link, link.name, Symlink, Some(target));
    }

    /** `fs_readlink`. */
    method ReadLink(link: FsNode?) returns (target: FsNode?)
      requires Valid() && (link != null ==> link in tree.nodes)
      ensures target == if link == null || link.kind != Symlink then null else link.symlinkTarget
      ensures link != null && link.kind == Symlink ==> target == OrNull(tree.nodes[link].target)
    {
      hide WellFormed;
      if link == null || link.kind != Symlink {
        return null;
      }
      target := link.symlinkTarget;
    }

    /** `fs_finddir`: the first child with that name. */
    method FindDir(node: FsNode?, name: string) returns (found: FsNode?)
      requires Valid() && (node != null ==> node in tree.nodes)
      ensures found == if node == null then null else OrNull(tree.FindDir(node, name))
    {
      hide WellFormed, Mirrored, Chained, DetachedAlone, NoneInItself, Tree.Closed;
      if node == null {
        return null;
      }
      ClosedOf(tree);
      ChainOf(tree, node);
      if node.kind != Directory {
        return null;
      }
      ghost var chain, i := tree.nodes[node].children, 0;
      found := node.children;
      assert chain[0..] == chain;
      while found != null && found.name != name
        invariant 0 <= i <= |chain| && found == At(chain, i)
        invariant tree.FirstNamed(chain, name) == tree.FirstNamed(chain[i..], name)
        decreases |chain| - i
      {
        assert chain[i..][1..] == chain[i + 1 ..];
        found := found.next;
        i := i + 1;
      }
    }

    /** The last node of a nonempty chain. */
    static method LastChild(parent: FsNode, ghost chain: seq<FsNode>) returns (last: FsNode)
      requires Linked(chain) && chain != [] && parent.children == chain[0]
      ensures last == chain[|chain| - 1]
    {
      last := parent.children;
      ghost var i := 0;
      while last.next != null
        invariant 0 <= i < |chain| && last == chain[i]
        decreases |chain| - i
      {
        last := last.next;
        i := i + 1;
      }
    }

    /** The pointer updates of `fs_add_node`. */
    static method Append(parent: FsNode, child: FsNode, ghost chain: seq<FsNode>)
      requires Linked(chain) && parent.children == At(chain, 0)
      requires child != parent && child !in chain && child.next == null
      modifies child`parent, parent`children, chain`next
      ensures child.parent == parent && parent.children == At(chain + [child], 0)
      ensures Linked(chain + [child])
    {
      child.parent := parent;
      if parent.children == null {
        parent.children := child;
      } else {
        var last := LastChild(parent, chain);
        last.next := child;
      }
    }

    /** `fs_add_node`, of a node that is in no directory. */
    method AddNode(parent: FsNode?, child: FsNode?)
      requires Valid() && (parent != null ==> parent in tree.nodes) && (child != null ==> child in tree.nodes)
      requires child != null ==> child.parent == null && child != parent
      modifies `tree, tree.nodes.Keys`parent, tree.nodes.Keys`children, tree.nodes.Keys`next
      ensures Valid()
      ensures tree == if parent == null || child == null then old(tree) else old(tree).Add(parent, child)
    {
      if parent == null || child == null || parent.kind != Directory {
        return;
      }
      AddToDirectory(parent, child);
    }

    method AddToDirectory(parent: FsNode, child: FsNode)
      requires Valid() && parent in tree.nodes && child in tree.nodes && parent.kind == Directory
      requires child.parent == null && child != parent
      modifies `tree, tree.nodes.Keys`parent, tree.nodes.Keys`children, tree.nodes.Keys`next
      ensures Valid() && tree == old(tree).Add(parent, child)
    {
      hide WellFormed, Linked, Mirrored, Chained, DetachedAlone, NoneInItself, Tree.Add, Tree.Closed;
      hide MirroredBut, ChainedBut, OffChain, At;
      ghost var before, chain, off := tree, tree.nodes[parent].children, OffChain(tree, parent);
      BeforeChange(before, parent, child);
      BeforeAddition(before, parent, child);
      tree := before.Add(parent, child);
      label L:
      Append(parent, child, chain);
      assert forall n | n in off :: n.next == old@L(n.next);
      MirrorsAddition(before, parent, child);
      ChainsAddition(before, parent, child);
    }

    /** The search of `fs_remove_node`: the node's place, and the node before it. */
    static method FindBefore(parent: FsNode, node: FsNode, ghost chain: seq<FsNode>)
      returns (found: bool, previous: FsNode?, ghost k: nat)
      requires Linked(chain) && parent.children == At(chain, 0)
      ensures found <==> node in chain
      ensures found ==> k < |chain| && chain[k] == node && previous == if k == 0 then null else chain[k - 1]
    {
      k := 0;
      previous := null;
      if parent.children == node {
        return true, null, 0;
      }
      var current := parent.children;
      while current != null && current.next != node
        invariant 0 <= k <= |chain| && current == At(chain, k)
        invariant node !in chain[..k] && At(chain, k) != node
        decreases |chain| - k
      {
        current := current.next;
        k := k + 1;
      }
      if current == null {
        return false, null, 0;
      }
      return true, current, k + 1;
    }

    /** The pointer updates of `fs_remove_node`. */
    static method Unlink(parent: FsNode, node: FsNode, previous: FsNode?, ghost chain: seq<FsNode>, ghost k: nat)
      requires Linked(chain) && Distinct(chain) && parent.children == At(chain, 0)
      requires k < |chain| && chain[k] == node && node != parent
      requires previous == if k == 0 then null else chain[k - 1]
      modifies node`parent, parent`children, chain`next
      ensures node.parent == null && parent.children == At(Without(chain, k), 0)
      ensures Linked(Without(chain, k)) && node.next == null
    {
      hide Without;
      if previous == null {
        parent.children := node.next;
      } else {
        previous.next := node.next;
      }
      node.parent := null;
      node.next := null;
      LinkedWithout(chain, k);
      AtWithout(chain, k, 0);
    }

    /** `fs_remove_node`. */
    method RemoveNode(parent: FsNode?, node: FsNode?) returns (status: int)
      requires Valid() && (parent != null ==> parent in tree.nodes)
      modifies `tree, tree.nodes.Keys`parent, tree.nodes.Keys`children, tree.nodes.Keys`next
      ensures Valid()
      ensures status == if parent != null && node in old(tree).nodes[parent].children then 0 else -1
      ensures status == -1 ==> tree == old(tree)
      ensures status == 0 ==> exists k | 0 <= k < |old(tree).nodes[parent].children| ::
        old(tree).nodes[parent].children[k] == node && tree == Remove(old(tree), parent, k)
    {
      if parent == null || node == null {
        return -1;
      }
      if parent.kind != Directory {
        return -1;
      }
      status := RemoveFromDirectory(parent, node);
    }

    method RemoveFromDirectory(parent: FsNode, node: FsNode) returns (status: int)
      requires Valid() && parent in tree.nodes
      modifies `tree, tree.nodes.Keys`parent, tree.nodes.Keys`children, tree.nodes.Keys`next
      ensures Valid()
      ensures status == if node in old(tree).nodes[parent].children then 0 else -1
      ensures status == -1 ==> tree == old(tree)
      ensures status == 0 ==> exists k | 0 <= k < |old(tree).nodes[parent].children| ::
        old(tree).nodes[parent].children[k] == node && tree == Remove(old(tree), parent, k)
    {
      hide WellFormed, Linked, Mirrored, Chained, DetachedAlone, NoneInItself, Remove, Tree.Closed;
      hide MirroredBut, ChainedBut, OffChain, At, Without, Distinct;
      ghost var before, chain, off := tree, tree.nodes[parent].children, OffChain(tree, parent);
      BeforeChange(before, parent, parent);
      var found, previous, k := FindBefore(parent, node, chain);
      if !found {
        return -1;
      }
      BeforeRemoval(before, parent, k);
      BeforeChange(before, parent, node);
      tree := Remove(before, parent, k);
      label L:
      Unlink(parent, node, previous, chain, k);
      assert forall n | n in off :: n.next == old@L(n.next);
      MirrorsRemoval(before, parent, k);
      ChainsRemoval(before, parent, k);
      return 0;
    }

    /** The copying of a component in `fs_resolve_path`. */
    static method CopyComponent(path: string, start: nat) returns (component: string, i: nat)
      requires start < |path|
      ensures i == start + Span(path[start..]) && i <= |path| && component == path[start..][..Span(path[start..])]
    {
      component := [];
      i := start;
      var j := 0;
      while i < |path| && path[i] != '/' && j < 127
        invariant start <= i <= |path| && j == i - start && j <= 127
        invariant component == path[start..i] && '/' !in component
      {
        component := component + [path[i]];
        i, j := i + 1, j + 1;
      }
      assert forall k | 0 <= k < j :: path[start..][k] == component[k];
      SpanFromIs(path[start..], 0, j);
    }

    /** The use of a component in `fs_resolve_path`. */
    method Step(current: FsNode, component: string) returns (next: FsNode?)
      requires Valid() && current in tree.nodes
      ensures next == OrNull(tree.Walk(current, component))
    {
      hide WellFormed, Mirrored, Chained, DetachedAlone, NoneInItself, Tree.FirstNamed, Tree.Closed;
      MirrorOf(tree, current);
      ClosedOf(tree);
      if component == "." {
        return current;
      }
      if component == ".." {
        return if current.parent != null then current.parent else current;
      }
      next := FindDir(current, component);
      if next == null {
        return null;
      }
      MirrorOf(tree, next);
      if next.kind == Symlink {
        next := ReadLink(next);
      }
    }

    /** `fs_resolve_path`. */
    method ResolvePath(path: string) returns (current: FsNode?)
      requires Valid()
      ensures current == OrNull(tree.Resolve(path))
    {
      hide WellFormed, Mirrored, Chained, DetachedAlone, NoneInItself, Tree.Walk, Tree.Closed, Tree.ResolveFrom, Span;
      ClosedOf(tree);
      current := root;
      var i := 0;
      tree.ResolveBehindSlash(root, path);
      if path != [] && path[0] == '/' {
        i := 1;
      }
      while i < |path|
        invariant 0 <= i <= |path| && current != null && current in tree.nodes
        invariant tree.ResolveFrom(current, path[i..]) == tree.Resolve(path)
        decreases |path| - i
      {
        tree.ResolveAt(current, path, i);
        ghost var behind := tree.Behind(path, i);
        var component;
        component, i := CopyComponent(path, i);
        if component != [] {
          current := Step(current, component);
          if current == null {
            return null;
          }
        }
        if i < |path| && path[i] == '/' {
          i := i + 1;
        }
        assert i == behind;
      }
      tree.ResolveEnd(current, path, i);
    }

    /** `fs_get_parent_dir`. */
    method GetParentDir(path: string) returns (parent: FsNode?)
      requires Valid()
      ensures parent == OrNull(tree.Resolve(ParentPath(path)))
    {
      hide WellFormed, Mirrored, Chained, DetachedAlone, NoneInItself, Tree.ResolveFrom, Tree.Closed, LastSlash;
      ClosedOf(tree);
      tree.ResolveEnd(root, [], 0);
      assert [][0..] == "";
      var lastSlash := LastSlash(path);
      if lastSlash.None? || lastSlash.value == 0 {
        return root;
      }
      var prefix := CopyPrefix(path[..lastSlash.value], 255);
      parent := ResolvePath(prefix);
    }
  }
}
