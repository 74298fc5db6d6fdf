/** Paths and the file tree of fs.c on values. */
module FsSpec {
  import opened Prelude

  const NAME_LENGTH := 127

  datatype Kind = File | Directory | CharDevice | BlockDevice | Pipe | Symlink

  // Paths

  /** The length of the component at the front: up to a slash, the end, or 127 characters. */
  function Span(path: string): (n: nat)
    ensures n <= |path| && n <= NAME_LENGTH
    ensures forall k | 0 <= k < n :: path[k] != '/'
    ensures n == |path| || n == NAME_LENGTH || path[n] == '/'
  {
    SpanFrom(path, 0)
  }

  function SpanFrom(path: string, j: nat): (n: nat)
    requires j <= |path| && j <= NAME_LENGTH && forall k | 0 <= k < j :: path[k] != '/'
    ensures j <= n <= |path| && n <= NAME_LENGTH
    ensures forall k | 0 <= k < n :: path[k] != '/'
    ensures n == |path| || n == NAME_LENGTH || path[n] == '/'
    decreases |path| - j
  {
    if j == |path| || j == NAME_LENGTH || path[j] == '/' then j else SpanFrom(path, j + 1)
  }

  lemma {:induction false} SpanFromIs(path: string, j: nat, n: nat)
    requires j <= n <= |path| && n <= 127 && forall k | 0 <= k < n :: path[k] != '/'
    requires n == |path| || n == 127 || path[n] == '/'
    ensures SpanFrom(path, j) == n
    decreases n - j
  {
    if j < n {
      SpanFromIs(path, j + 1, n);
    }
  }

  /** A path without its first character if that is a slash. */
  function SkipSlash(path: string): string {
    if path != [] && path[0] == '/' then path[1..] else path
  }

  /** The components that the loop of `fs_resolve_path` reads from a path. */
  function Components(path: string): seq<string>
    decreases |path|
  {
    if path == [] then []
    else
      var n := Span(path);
      if n == 0 then Components(path[1..])
      else [path[..n]] + Components(SkipSlash(path[n..]))
  }

  /** The parts between slashes. */
  function Split(path: string): (parts: seq<string>)
    ensures parts != []
    ensures forall part | part in parts :: '/' !in part
  {
    if path == [] then [[]]
    else if path[0] == '/' then [[]] + Split(path[1..])
    else
      var rest := Split(path[1..]);
      [[path[0]] + rest[0]] + rest[1..]
  }

  /** Pieces of at most 127 characters, none of them empty. */
  function Pieces(part: string): seq<string>
    decreases |part|
  {
    if part == [] then []
    else if |part| <= 127 then [part]
    else [part[..127]] + Pieces(part[127..])
  }

  function AllPieces(parts: seq<string>): seq<string> {
    if parts == [] then [] else Pieces(parts[0]) + AllPieces(parts[1..])
  }

  function NonEmpty(parts: seq<string>): seq<string> {
    if parts == [] then [] else (if parts[0] == [] then [] else [parts[0]]) + NonEmpty(parts[1..])
  }

  lemma {:induction false} SplitPrepend(head: string, rest: string)
    requires '/' !in head
    ensures Split(head + rest) == [head + Split(rest)[0]] + Split(rest)[1..]
    decreases |head|
  {
    if head == [] {
      assert head + rest == rest;
      assert [] + Split(rest)[0] == Split(rest)[0];
    } else {
      assert (head + rest)[1..] == head[1..] + rest;
      SplitPrepend(head[1..], rest);
      assert [head[0]] + (head[1..] + Split(rest)[0]) == head + Split(rest)[0];
    }
  }

  /** The components of a path are the pieces of its parts: a part of more than 127
      characters counts as several components. */
  lemma {:induction false} ComponentsArePieces(path: string)
    ensures Components(path) == AllPieces(Split(path))
    decreases |path|
  {
    if path != [] {
      var n := Span(path);
      var head, tail := path[..n], path[n..];
      assert path == head + tail;
      if n == 0 {
        ComponentsArePieces(path[1..]);
      } else {
        ComponentsArePieces(SkipSlash(tail));
        HeadPiece(head, tail);
      }
    }
  }

  lemma HeadPiece(head: string, tail: string)
    requires '/' !in head && 0 < |head| <= NAME_LENGTH
    requires tail == [] || tail[0] == '/' || |head| == NAME_LENGTH
    ensures AllPieces(Split(head + tail)) == [head] + AllPieces(Split(SkipSlash(tail)))
  {
    SplitPrepend(head, tail);
    if tail == [] || tail[0] == '/' {
      assert head + [] == head;
    } else {
      PiecesSplit(head, Split(tail)[0]);
    }
  }

  lemma PiecesSplit(head: string, rest: string)
    requires |head| == NAME_LENGTH
    ensures Pieces(head + rest) == [head] + Pieces(rest)
  {
    if rest == [] {
      assert head + rest == head;
    } else {
      assert (head + rest)[..NAME_LENGTH] == head && (head + rest)[NAME_LENGTH..] == rest;
    }
  }

  /** With parts of up to 127 characters, the components are the nonempty parts. */
  lemma {:induction false} ShortParts(parts: seq<string>)
    requires forall part | part in parts :: |part| <= 127
    ensures AllPieces(parts) == NonEmpty(parts)
  {
    if parts != [] {
      ShortParts(parts[1..]);
    }
  }

  /** A slash separates the components before it from those behind it. */
  lemma {:induction false} ComponentsConcat(p: string, q: string)
    ensures Components(p + "/" + q) == Components(p) + Components(q)
    decreases |p|
  {
    var path := p + "/" + q;
    if p == [] {
      assert path[1..] == q;
    } else {
      var n := Span(p);
      assert path == p + ("/" + q);
      SpanOfPrefix(p, "/" + q);
      RestOfConcat(p, q, n);
      if n == 0 {
        ComponentsConcat(p[1..], q);
      } else if n < |p| {
        ComponentsConcat(SkipSlash(p[n..]), q);
      }
    }
  }

  lemma RestOfConcat(p: string, q: string, n: nat)
    requires p != [] && n <= |p|
    ensures var path := p + "/" + q;
      && path[..n] == p[..n]
      && path[1..] == p[1..] + "/" + q
      && SkipSlash(path[n..]) == if n == |p| then q else SkipSlash(p[n..]) + "/" + q
  {
    var path := p + "/" + q;
    if n < |p| {
      assert path[n..] == p[n..] + "/" + q;
    } else {
      assert path[n..] == "/" + q;
    }
  }

  lemma SpanOfPrefix(p: string, rest: string)
    requires rest != [] && rest[0] == '/'
    ensures Span(p + rest) == Span(p)
  {
    assert forall k | 0 <= k < |p| :: (p + rest)[k] == p[k];
    assert (p + rest)[|p|] == '/';
  }

  /** A name that is one component of a path, and not "." or "..". */
  predicate IsPlainName(name: string) {
    name !in {".", ".."} && '/' !in name && 0 < |name| <= 127
  }

  // The tree

  /** A node: its children in the order of their chain, and what it links to. */
  datatype Node<N> = Node(name: string, kind: Kind, parent: Option<N>, children: seq<N>, target: Option<N>)

  datatype Tree<N(==)> = Tree(root: N, nodes: map<N, Node<N>>)
  {
    /** Every node named in the tree is in it. */
    ghost predicate Closed() {
      && root in nodes
      && (forall n | n in nodes && nodes[n].parent.Some? :: nodes[n].parent.value in nodes)
      && (forall n | n in nodes && nodes[n].target.Some? :: nodes[n].target.value in nodes)
      && (forall n, c | n in nodes && c in nodes[n].children :: c in nodes)
    }

    /** The first of the given children with that name. */
    function FirstNamed(children: seq<N>, name: string): (found: Option<N>)
      requires forall c | c in children :: c in nodes
      ensures found.Some? ==> found.value in children && nodes[found.value].name == name
      ensures found.None? ==> forall c | c in children :: nodes[c].name != name
    {
      if children == [] then None
      else if nodes[children[0]].name == name then Some(children[0])
      else FirstNamed(children[1..], name)
    }

    /** Lookup in a directory: the first child with that name. */
    function FindDir(n: N, name: string): (found: Option<N>)
      requires Closed() && n in nodes
      ensures found.Some? ==> found.value in nodes
    {
      if nodes[n].kind != Directory then None else FirstNamed(nodes[n].children, name)
    }

    /** One symlink hop. */
    function ReadLink(n: N): (target: Option<N>)
      requires Closed() && n in nodes
      ensures target.Some? ==> target.value in nodes
    {
      if nodes[n].kind == Symlink then nodes[n].target else Some(n)
    }

    /** One component of a path, looked up at n. */
    function Walk(n: N, component: string): (r: Option<N>)
      requires Closed() && n in nodes
      ensures r.Some? ==> r.value in nodes
    {
      if component == "." then Some(n)
      else if component == ".." then (if nodes[n].parent.Some? then nodes[n].parent else Some(n))
      else
        var next := FindDir(n, component);
        if next.None? then None else ReadLink(next.value)
    }

    function WalkAll(n: N, components: seq<string>): (r: Option<N>)
      requires Closed() && n in nodes
      ensures r.Some? ==> r.value in nodes
      decreases |components|
    {
      if components == [] then Some(n)
      else
        var next := Walk(n, components[0]);
        if next.None? then None else WalkAll(next.value, components[1..])
    }

    /** `fs_resolve_path`, from a node on. */
    function ResolveFrom(n: N, path: string): (r: Option<N>)
      requires Closed() && n in nodes
      ensures r.Some? ==> r.value in nodes
    {
      WalkAll(n, Components(path))
    }

    function Resolve(path: string): (r: Option<N>)
      requires Closed()
      ensures r.Some? ==> r.value in nodes
    {
      ResolveFrom(root, path)
    }

    /** A lookup finds the first child of that name, of a directory. */
    lemma FindsFirst(n: N, name: string)
      requires Closed() && n in nodes
      ensures var cs := nodes[n].children;
        match FindDir(n, name)
        case Some(c) =>
          && nodes[n].kind == Directory
          && exists k | 0 <= k < |cs| :: cs[k] == c && nodes[c].name == name &&
               forall j | 0 <= j < k :: nodes[cs[j]].name != name
        case None => nodes[n].kind != Directory || forall c | c in cs :: nodes[c].name != name
    {
      if nodes[n].kind == Directory {
        FirstOf(nodes[n].children, name);
      }
    }

    lemma {:induction false} FirstOf(cs: seq<N>, name: string)
      requires forall c | c in cs :: c in nodes
      ensures var found := FirstNamed(cs, name); found.Some? ==>
        exists k | 0 <= k < |cs| :: cs[k] == found.value && nodes[cs[k]].name == name &&
          forall j | 0 <= j < k :: nodes[cs[j]].name != name
    {
      if cs != [] {
        if nodes[cs[0]].name == name {
          assert FirstNamed(cs, name) == Some(cs[0]);
        } else if FirstNamed(cs[1..], name).Some? {
          FirstOf(cs[1..], name);
          var k :| 0 <= k < |cs[1..]| && cs[1..][k] == FirstNamed(cs[1..], name).value && nodes[cs[1..][k]].name == name
            && forall j | 0 <= j < k :: nodes[cs[1..][j]].name != name;
          assert forall j | 0 < j < k + 1 :: cs[j] == cs[1..][j - 1];
          assert cs[k + 1] == FirstNamed(cs, name).value;
        }
      }
    }

    /** "." stays, and ".." goes to the parent, or stays where there is none. */
    lemma WalkDots(n: N)
      requires Closed() && n in nodes
      ensures Walk(n, ".") == Some(n)
      ensures Walk(n, "..") == if nodes[n].parent.None? then Some(n) else nodes[n].parent
    {
    }

    /** The root is where absolute and relative paths begin, and above it is nothing. */
    lemma RootResolves()
      requires Closed()
      ensures Resolve("") == Resolve("/") == Resolve(".") == Some(root)
      ensures nodes[root].parent.None? ==> Resolve("/..") == Some(root)
    {
      ResolveEnd(root, "", 0);
      assert ""[0..] == "";
      ResolveByStep(root, "/");
      assert "/"[1..] == "";
      ResolveOne(root, ".");
      ResolveOne(root, "..");
      ResolveByStep(root, "/..");
      assert "/.."[1..] == "..";
    }

    /** A single short name is resolved by one step. */
    lemma ResolveOne(n: N, name: string)
      requires Closed() && n in nodes && '/' !in name && 0 < |name| <= NAME_LENGTH
      ensures ResolveFrom(n, name) == Walk(n, name)
    {
      hide Walk, Closed;
      SpanFromIs(name, 0, |name|);
      assert name[..|name|] == name && name[|name|..] == [];
      ResolveByStep(n, name);
      if Walk(n, name).Some? {
        ResolveEnd(Walk(n, name).value, "", 0);
        assert ""[0..] == "";
      }
    }

    /** A component that is the name of anything but a link leads to that node. */
    lemma WalkToChild(n: N, name: string)
      requires Closed() && n in nodes && name !in {".", ".."}
      requires FindDir(n, name).Some? && nodes[FindDir(n, name).value].kind != Symlink
      ensures Walk(n, name) == FindDir(n, name)
    {
    }

    lemma ResolveThroughChild(n: N, name: string, q: string)
      requires Closed() && n in nodes && IsPlainName(name)
      requires FindDir(n, name).Some? && nodes[FindDir(n, name).value].kind != Symlink
      ensures ResolveFrom(n, name + "/" + q) == ResolveFrom(FindDir(n, name).value, q)
    {
      hide Walk, ResolveFrom, Closed;
      ResolveOne(n, name);
      WalkToChild(n, name);
      ResolveConcat(n, name, q);
    }

    /** The name of a symbolic link leads to its target, also if that is a link itself: one
        hop only. Without a target it leads nowhere. */
    lemma WalkThroughLink(n: N, name: string)
      requires Closed() && n in nodes && name !in {".", ".."}
      requires FindDir(n, name).Some? && nodes[FindDir(n, name).value].kind == Symlink
      ensures Walk(n, name) == nodes[FindDir(n, name).value].target
    {
    }

    /** So p/name/q is what q is from the target of the link, and ".." behind the link is the
        parent of the target, not of the link. */
    lemma ResolveThroughLink(n: N, name: string, q: string)
      requires Closed() && n in nodes && IsPlainName(name)
      requires FindDir(n, name).Some? && nodes[FindDir(n, name).value].kind == Symlink
      ensures var target := nodes[FindDir(n, name).value].target;
        && ResolveFrom(n, name + "/" + q) == (if target.None? then None else ResolveFrom(target.value, q))
        && (target.Some? && nodes[target.value].parent.Some? ==>
            ResolveFrom(n, name + "/" + "..") == nodes[target.value].parent)
    {
      hide Walk, ResolveFrom, Closed;
      ResolveOne(n, name);
      WalkThroughLink(n, name);
      ResolveConcat(n, name, q);
      ResolveConcat(n, name, "..");
      var target := nodes[FindDir(n, name).value].target;
      if target.Some? {
        ResolveOne(target.value, "..");
        WalkDots(target.value);
      }
    }

    lemma {:induction false} WalkConcat(n: N, cs: seq<string>, ds: seq<string>)
      requires Closed() && n in nodes
      ensures WalkAll(n, cs + ds) == if WalkAll(n, cs).None? then None else WalkAll(WalkAll(n, cs).value, ds)
      decreases |cs|
    {
      if cs == [] {
        assert cs + ds == ds;
      } else {
        assert (cs + ds)[1..] == cs[1..] + ds;
        var next := Walk(n, cs[0]);
        if next.Some? {
          WalkConcat(next.value, cs[1..], ds);
        }
      }
    }

    /** Resolving p/q is resolving q from what p resolves to, for all p and q. */
    lemma ResolveConcat(n: N, p: string, q: string)
      requires Closed() && n in nodes
      ensures ResolveFrom(n, p + "/" + q) ==
        if ResolveFrom(n, p).None? then None else ResolveFrom(ResolveFrom(n, p).value, q)
    {
      ComponentsConcat(p, q);
      WalkConcat(n, Components(p), Components(q));
    }

    /** A path resolves by its first component. */
    lemma ResolveByStep(n: N, path: string)
      requires Closed() && n in nodes && path != []
      ensures var k := Span(path);
        ResolveFrom(n, path) ==
          if k == 0 then ResolveFrom(n, path[1..])
          else if Walk(n, path[..k]).None? then None
          else ResolveFrom(Walk(n, path[..k]).value, SkipSlash(path[k..]))
    {
      var k := Span(path);
      if k > 0 {
        assert ([path[..k]] + Components(SkipSlash(path[k..])))[1..] == Components(SkipSlash(path[k..]));
      }
    }

    /** The place in a path behind the component that starts at i. */
    static function Behind(path: string, i: nat): (next: nat)
      requires i < |path|
      ensures i < next <= |path|
    {
      var next := i + Span(path[i..]);
      if next < |path| && path[next] == '/' then next + 1 else next
    }

    static lemma SuffixBehind(path: string, i: nat)
      requires i < |path|
      ensures var k := Span(path[i..]);
        && (k == 0 ==> path[i..][1..] == path[Behind(path, i)..])
        && (k > 0 ==> SkipSlash(path[i..][k..]) == path[Behind(path, i)..])
    {
      var k := Span(path[i..]);
      assert path[i..][k..] == path[i + k ..];
    }

    lemma ResolveAt(n: N, path: string, i: nat)
      requires Closed() && n in nodes && i < |path|
      ensures var component := path[i..][..Span(path[i..])];
        ResolveFrom(n, path[i..]) ==
          if component == [] then ResolveFrom(n, path[Behind(path, i)..])
          else if Walk(n, component).None? then None
          else ResolveFrom(Walk(n, component).value, path[Behind(path, i)..])
    {
      hide ResolveFrom, Walk, Closed, Span;
      ResolveByStep(n, path[i..]);
      SuffixBehind(path, i);
    }

    lemma ResolveEnd(n: N, path: string, i: nat)
      requires Closed() && n in nodes && i == |path|
      ensures ResolveFrom(n, path[i..]) == Some(n)
    {
    }

    lemma ResolveBehindSlash(n: N, path: string)
      requires Closed() && n in nodes
      ensures ResolveFrom(n, SkipSlash(path)) == ResolveFrom(n, path)
    {
      if path != [] && path[0] == '/' {
        ResolveByStep(n, path);
      }
    }

    // Adding a node

    /** `fs_create_node` and `fs_create_symlink`: a new node, not yet anywhere in the tree. */
    function WithNode(c: N, name: string, kind: Kind, target: Option<N>): (t: Tree<N>)
      ensures t.nodes.Keys == nodes.Keys + {c}
      ensures c !in nodes && Closed() && (target.Some? ==> target.value in nodes) ==> t.Closed()
    {
      this.(nodes := nodes[c := Node(name, kind, None, [], target)])
    }

    /** `fs_add_node`: the child comes last; a parent that is no directory takes none. */
    function Add(p: N, c: N): (t: Tree<N>)
      requires p in nodes && c in nodes
      ensures Closed() ==> t.Closed()
    {
      if nodes[p].kind != Directory then this
      else
        var linked := nodes[c := nodes[c].(parent := Some(p))];
        this.(nodes := linked[p := linked[p].(children := nodes[p].children + [c])])
    }

    /** The tree in which `syscall_open` has created file c below p. */
    function Created(p: N, c: N, name: string): (t: Tree<N>)
      requires Closed() && p in nodes && c !in nodes
      ensures t.Closed() && t.root == root && t.nodes.Keys == nodes.Keys + {c}
      ensures forall n | n in nodes ::
        t.nodes[n] == (if n == p && nodes[p].kind == Directory then nodes[p].(children := nodes[p].children + [c])
                       else nodes[n])
      ensures t.nodes[c] == Node(name, File, if nodes[p].kind == Directory then Some(p) else None, [], None)
    {
      WithNode(c, name, File, None).Add(p, c)
    }

    lemma {:induction false} FirstNamedInCreated(p: N, c: N, name: string, children: seq<N>, wanted: string)
      requires Closed() && p in nodes && c !in nodes && forall d | d in children :: d in nodes
      ensures var t := Created(p, c, name);
        && t.FirstNamed(children, wanted) == FirstNamed(children, wanted)
        && t.FirstNamed(children + [c], wanted) ==
           if FirstNamed(children, wanted).None? && wanted == name then Some(c) else FirstNamed(children, wanted)
      decreases |children|
    {
      if children == [] {
        assert children + [c] == [c];
      } else {
        assert (children + [c])[1..] == children[1..] + [c];
        FirstNamedInCreated(p, c, name, children[1..], wanted);
      }
    }

    /** Whether a lookup of that name in n now finds the new file. */
    ghost predicate FindsNew(p: N, name: string, n: N, wanted: string)
      requires Closed() && p in nodes
    {
      n == p && nodes[p].kind == Directory && wanted == name && FindDir(p, name).None?
    }

    lemma FindDirInCreated(p: N, c: N, name: string, n: N, wanted: string)
      requires Closed() && p in nodes && c !in nodes && n in nodes
      ensures Created(p, c, name).FindDir(n, wanted) ==
        if FindsNew(p, name, n, wanted) then Some(c) else FindDir(n, wanted)
    {
      hide Created, FirstNamed;
      FirstNamedInCreated(p, c, name, nodes[n].children, wanted);
    }

    /** What the new file changes in a single step of a walk. */
    lemma WalkInCreated(p: N, c: N, name: string, n: N, component: string)
      requires Closed() && p in nodes && c !in nodes && n in nodes
      ensures Created(p, c, name).Walk(n, component) ==
        if component != "." && component != ".." && FindsNew(p, name, n, component) then Some(c) else Walk(n, component)
    {
      hide Created, FindDir, FindsNew;
      FindDirInCreated(p, c, name, n, component);
    }

    /** A path that resolved before resolves to the same node afterwards, wherever a new
        file is added and whatever its name. */
    lemma {:induction false} CreationKeepsWalks(p: N, c: N, name: string, n: N, components: seq<string>)
      requires Closed() && p in nodes && c !in nodes && n in nodes
      ensures WalkAll(n, components).Some? ==> Created(p, c, name).WalkAll(n, components) == WalkAll(n, components)
      decreases |components|
    {
      if components != [] && Walk(n, components[0]).Some? {
        WalkInCreated(p, c, name, n, components[0]);
        CreationKeepsWalks(p, c, name, Walk(n, components[0]).value, components[1..]);
      }
    }

    /** A file in no directory, or behind another of its name, is never found. */
    lemma {:induction false} ShadowedWalks(p: N, c: N, name: string, n: N, components: seq<string>)
      requires Closed() && p in nodes && c !in nodes && n in nodes
      requires nodes[p].kind != Directory || FindDir(p, name).Some?
      ensures Created(p, c, name).WalkAll(n, components) == WalkAll(n, components)
      decreases |components|
    {
      if components != [] {
        WalkInCreated(p, c, name, n, components[0]);
        if Walk(n, components[0]).Some? {
          ShadowedWalks(p, c, name, Walk(n, components[0]).value, components[1..]);
        }
      }
    }
  }

  /** The place of the last slash. */
  function LastSlash(path: string): (k: Option<nat>)
    ensures k.Some? ==> k.value < |path| && path[k.value] == '/' && '/' !in path[k.value + 1 ..]
    ensures k.None? ==> '/' !in path
  {
    if path == [] then None
    else if path[|path| - 1] == '/' then Some(|path| - 1)
    else
      var k := LastSlash(path[..|path| - 1]);
      k
  }

  /** The name of the file that a path ends in. */
  function FileName(path: string): string {
    var k := LastSlash(path);
    if k.None? then path else path[k.value + 1 ..]
  }

  /** The part of a path before its last slash. */
  function DirectoryPath(path: string): string {
    var k := LastSlash(path);
    if k.None? then [] else path[..k.value]
  }

  /** As much of it as `fs_get_parent_dir` resolves. */
  function ParentPath(path: string): string {
    var directory := DirectoryPath(path);
    if |directory| > 255 then directory[..255] else directory
  }

  /** A name as `fs_create_node` stores it. */
  function StoredName(name: string): string {
    if |name| <= NAME_LENGTH then name else name[..NAME_LENGTH]
  }

  // The shape of the tree

  /** A node's parent is p exactly when the node is among the children of p. */
  ghost predicate ParentsAgree<N>(t: Tree<N>)
  {
    forall p, c | p in t.nodes && c in t.nodes :: c in t.nodes[p].children <==> t.nodes[c].parent == Some(p)
  }

  ghost predicate ChildrenDistinct<N>(t: Tree<N>) {
    forall p | p in t.nodes :: Distinct(t.nodes[p].children)
  }

  ghost predicate OnlyDirectoriesHold<N>(t: Tree<N>) {
    forall p | p in t.nodes && t.nodes[p].kind != Directory :: t.nodes[p].children == []
  }

  /** Every node is at most once a child, of a directory. */
  ghost predicate WellFormed<N>(t: Tree<N>) {
    t.Closed() && ParentsAgree(t) && ChildrenDistinct(t) && OnlyDirectoriesHold(t)
  }

  /** `fs_remove_node`, of the child at place k. */
  function Remove<N>(t: Tree<N>, p: N, k: nat): Tree<N>
    requires p in t.nodes && k < |t.nodes[p].children|
    requires t.nodes[p].children[k] in t.nodes && t.nodes[p].children[k] != p
  {
    var c := t.nodes[p].children[k];
    t.(nodes := t.nodes[p := t.nodes[p].(children := Without(t.nodes[p].children, k))]
                       [c := t.nodes[c].(parent := None)])
  }

  lemma AddParents<N>(t: Tree<N>, p: N, c: N, q: N, d: N)
    requires ParentsAgree(t) && p in t.nodes && c in t.nodes && p != c && t.nodes[c].parent.None?
    requires q in t.nodes && d in t.nodes
    ensures var t' := t.Add(p, c); d in t'.nodes[q].children <==> t'.nodes[d].parent == Some(q)
  {
    assert d in t.nodes[q].children <==> t.nodes[d].parent == Some(q);
  }

  lemma AddIs<N>(t: Tree<N>, p: N, c: N)
    requires p in t.nodes && c in t.nodes && p != c && t.nodes[p].kind == Directory
    ensures var t' := t.Add(p, c);
      && t'.root == t.root && t'.nodes.Keys == t.nodes.Keys
      && t'.nodes[p] == t.nodes[p].(children := t.nodes[p].children + [c])
      && t'.nodes[c] == t.nodes[c].(parent := Some(p))
      && forall n | n in t.nodes && n != p && n != c :: t'.nodes[n] == t.nodes[n]
  {
  }

  lemma AddKeepsDistinct<N>(t: Tree<N>, p: N, c: N, q: N)
    requires ParentsAgree(t) && p in t.nodes && c in t.nodes && p != c && t.nodes[c].parent.None?
    requires t.nodes[p].kind == Directory && q in t.nodes && Distinct(t.nodes[q].children)
    ensures Distinct(t.Add(p, c).nodes[q].children)
  {
    assert c in t.nodes[p].children <==> t.nodes[c].parent == Some(p);
    hide ParentsAgree;
    AddIs(t, p, c);
  }

  /** Adding a detached node keeps the shape. */
  lemma AddKeepsShape<N>(t: Tree<N>, p: N, c: N)
    requires WellFormed(t) && p in t.nodes && c in t.nodes && p != c && t.nodes[c].parent.None?
    ensures WellFormed(t.Add(p, c))
  {
    if t.nodes[p].kind == Directory {
      hide Distinct, ParentsAgree;
      AddIs(t, p, c);
      forall q | q in t.nodes
        ensures Distinct(t.Add(p, c).nodes[q].children)
      {
        AddKeepsDistinct(t, p, c, q);
      }
      AddKeepsParents(t, p, c);
    }
  }

  lemma AddKeepsParents<N>(t: Tree<N>, p: N, c: N)
    requires ParentsAgree(t) && p in t.nodes && c in t.nodes && p != c && t.nodes[c].parent.None?
    requires t.nodes[p].kind == Directory
    ensures ParentsAgree(t.Add(p, c))
  {
    AddIs(t, p, c);
    forall q, d | q in t.nodes && d in t.nodes
      ensures d in t.Add(p, c).nodes[q].children <==> t.Add(p, c).nodes[d].parent == Some(q)
    {
      AddParents(t, p, c, q, d);
    }
  }

  lemma RemoveIs<N>(t: Tree<N>, p: N, k: nat)
    requires p in t.nodes && k < |t.nodes[p].children|
    requires t.nodes[p].children[k] in t.nodes && t.nodes[p].children[k] != p
    ensures var t' := Remove(t, p, k); var c := t.nodes[p].children[k];
      && t'.root == t.root && t'.nodes.Keys == t.nodes.Keys
      && t'.nodes[p] == t.nodes[p].(children := Without(t.nodes[p].children, k))
      && t'.nodes[c] == t.nodes[c].(parent := None)
      && forall n | n in t.nodes && n != p && n != c :: t'.nodes[n] == t.nodes[n]
  {
  }

  lemma RemoveParents<N>(t: Tree<N>, p: N, k: nat, q: N, d: N)
    requires ParentsAgree(t) && p in t.nodes && k < |t.nodes[p].children| && Distinct(t.nodes[p].children)
    requires t.nodes[p].children[k] in t.nodes && t.nodes[p].children[k] != p
    requires q in t.nodes && d in t.nodes
    ensures var t' := Remove(t, p, k); d in t'.nodes[q].children <==> t'.nodes[d].parent == Some(q)
  {
    hide Remove, Without, Distinct;
    RemoveIs(t, p, k);
    var c := t.nodes[p].children[k];
    assert d in t.nodes[q].children <==> t.nodes[d].parent == Some(q);
    assert c in t.nodes[p].children <==> t.nodes[c].parent == Some(p);
    if d in t.nodes[p].children {
      var i :| 0 <= i < |t.nodes[p].children| && t.nodes[p].children[i] == d;
    }
  }

  lemma RemoveKeepsParents<N>(t: Tree<N>, p: N, k: nat)
    requires ParentsAgree(t) && p in t.nodes && k < |t.nodes[p].children| && Distinct(t.nodes[p].children)
    requires t.nodes[p].children[k] in t.nodes && t.nodes[p].children[k] != p
    ensures ParentsAgree(Remove(t, p, k))
  {
    hide Without, Distinct;
    RemoveIs(t, p, k);
    forall q, d | q in t.nodes && d in t.nodes
      ensures d in Remove(t, p, k).nodes[q].children <==> Remove(t, p, k).nodes[d].parent == Some(q)
    {
      RemoveParents(t, p, k, q, d);
    }
  }

  lemma RemoveKeepsClosed<N>(t: Tree<N>, p: N, k: nat)
    requires t.Closed() && p in t.nodes && k < |t.nodes[p].children| && t.nodes[p].children[k] != p
    ensures Remove(t, p, k).Closed()
  {
    hide Without, Distinct, Remove;
    RemoveIs(t, p, k);
    var t' := Remove(t, p, k);
    assert forall n | n in t'.nodes && t'.nodes[n].parent.Some? :: t'.nodes[n].parent == t.nodes[n].parent;
    assert forall n | n in t'.nodes :: t'.nodes[n].target == t.nodes[n].target;
    assert forall n, c | n in t'.nodes && c in t'.nodes[n].children :: c in t.nodes[n].children;
  }

  /** Removing a child keeps the shape. */
  lemma RemoveKeepsShape<N>(t: Tree<N>, p: N, k: nat)
    requires WellFormed(t) && p in t.nodes && k < |t.nodes[p].children| && t.nodes[p].children[k] != p
    ensures WellFormed(Remove(t, p, k))
  {
    assert Distinct(t.nodes[p].children);
    RemoveKeepsClosed(t, p, k);
    RemoveKeepsParents(t, p, k);
    hide Without, Distinct, ParentsAgree, Remove, Tree.Closed;
    RemoveIs(t, p, k);
  }

  /** A removed child that is added again comes last, behind the others in their order;
      this changes nothing exactly if it was last. */
  lemma RemoveThenAdd<N>(t: Tree<N>, p: N, k: nat)
    requires WellFormed(t) && p in t.nodes && k < |t.nodes[p].children| && t.nodes[p].children[k] != p
    ensures var c := t.nodes[p].children[k];
      && Remove(t, p, k).Add(p, c).nodes[p].children == t.nodes[p].children[..k] + t.nodes[p].children[k + 1 ..] + [c]
      && (Remove(t, p, k).Add(p, c) == t <==> k == |t.nodes[p].children| - 1)
  {
    var c, cs := t.nodes[p].children[k], t.nodes[p].children;
    var t' := Remove(t, p, k).Add(p, c);
    ChildOf(t, p, c);
    MovedToEnd(cs, k);
    RemoveThenAddIs(t, p, k);
    hide WellFormed, Distinct, Remove, Tree.Add;
    if k == |cs| - 1 {
      forall n | n in t.nodes
        ensures t'.nodes[n] == t.nodes[n]
      {
      }
      SameTree(t, t');
    }
  }

  lemma ChildOf<N>(t: Tree<N>, p: N, c: N)
    requires WellFormed(t) && p in t.nodes && c in t.nodes[p].children
    ensures c in t.nodes && t.nodes[c].parent == Some(p)
    ensures t.nodes[p].kind == Directory && Distinct(t.nodes[p].children)
  {
    assert c in t.nodes[p].children <==> t.nodes[c].parent == Some(p);
  }

  lemma SameTree<N>(t: Tree<N>, t': Tree<N>)
    requires t'.root == t.root && t'.nodes.Keys == t.nodes.Keys
    requires forall n | n in t.nodes :: t'.nodes[n] == t.nodes[n]
    ensures t' == t
  {
    assert t'.nodes == t.nodes;
  }

  lemma MovedToEnd<T>(s: seq<T>, k: nat)
    requires k < |s| && Distinct(s)
    ensures s[..k] + s[k + 1 ..] + [s[k]] == s <==> k == |s| - 1
  {
    if k < |s| - 1 {
      assert (s[..k] + s[k + 1 ..] + [s[k]])[k] == s[k + 1] != s[k];
    } else {
      assert s[..k] + s[k + 1 ..] + [s[k]] == s;
    }
  }

  lemma RemoveThenAddIs<N>(t: Tree<N>, p: N, k: nat)
    requires p in t.nodes && t.nodes[p].kind == Directory && k < |t.nodes[p].children|
    requires t.nodes[p].children[k] in t.nodes && t.nodes[p].children[k] != p
    ensures var cs, c := t.nodes[p].children, t.nodes[p].children[k]; var t' := Remove(t, p, k).Add(p, c);
      && t'.root == t.root && t'.nodes.Keys == t.nodes.Keys
      && t'.nodes[p] == t.nodes[p].(children := cs[..k] + cs[k + 1 ..] + [c])
      && t'.nodes[c] == t.nodes[c].(parent := Some(p))
      && forall n | n in t.nodes && n != p && n != c :: t'.nodes[n] == t.nodes[n]
  {
    RemoveIs(t, p, k);
    hide Remove, Tree.Add;
    AddIs(Remove(t, p, k), p, t.nodes[p].children[k]);
  }

  // Forests

  /** The depths of nodes grow from parents to children. */
  ghost predicate Layers<N>(t: Tree<N>, depth: map<N, nat>) {
    depth.Keys == t.nodes.Keys
    && forall c, p | c in t.nodes && p in t.nodes && t.nodes[c].parent == Some(p) :: depth[c] > depth[p]
  }

  /** Going up never comes around to the same node. */
  ghost predicate IsForest<N(!new)>(t: Tree<N>) {
    exists depth: map<N, nat> :: Layers(t, depth)
  }

  /** A set of nodes that holds c and, with a node, its children, but not p. */
  ghost predicate Separates<N>(t: Tree<N>, below: set<N>, c: N, p: N) {
    && c in below && p !in below
    && forall d | d in t.nodes && t.nodes[d].parent.Some? && t.nodes[d].parent.value in below :: d in below
  }

  /** A detached node can be added below p without making a loop exactly if p does not
      lie below it. */
  lemma AddKeepsForestIff<N(!new)>(t: Tree<N>, p: N, c: N)
    requires IsForest(t) && p in t.nodes && c in t.nodes
    requires t.nodes[c].parent.None? && t.nodes[p].kind == Directory
    ensures IsForest(t.Add(p, c)) <==> exists below: set<N> :: Separates(t, below, c, p)
  {
    if p == c {
      AddedToItself(t, p);
      return;
    }
    if below: set<N> :| Separates(t, below, c, p) {
      SeparateThenAdd(t, p, c, below);
    }
    if IsForest(t.Add(p, c)) {
      var depth: map<N, nat> :| Layers(t.Add(p, c), depth);
      AddedSeparates(t, p, c, depth);
    }
  }

  lemma AddedToItself<N(!new)>(t: Tree<N>, p: N)
    requires p in t.nodes && t.nodes[p].kind == Directory
    ensures !IsForest(t.Add(p, p)) && forall below: set<N> :: !Separates(t, below, p, p)
  {
    assert t.Add(p, p).nodes[p].parent == Some(p);
    hide Tree.Add;
  }

  function Lowered<N>(depth: map<N, nat>, below: set<N>, step: nat): (r: map<N, nat>)
    ensures r.Keys == depth.Keys
    ensures forall n | n in depth :: r[n] == if n in below then depth[n] + step else depth[n]
  {
    map n | n in depth :: if n in below then depth[n] + step else depth[n]
  }

  lemma SeparateThenAdd<N(!new)>(t: Tree<N>, p: N, c: N, below: set<N>)
    requires IsForest(t) && p in t.nodes && c in t.nodes && p != c
    requires t.nodes[c].parent.None? && t.nodes[p].kind == Directory && Separates(t, below, c, p)
    ensures IsForest(t.Add(p, c))
  {
    var depth: map<N, nat> :| Layers(t, depth);
    AddIs(t, p, c);
    hide Tree.Add, Lowered;
    var lowered := Lowered(depth, below, depth[p] + 1);
    forall d, q | d in t.nodes && q in t.nodes && t.Add(p, c).nodes[d].parent == Some(q)
      ensures lowered[d] > lowered[q]
    {
      if d != c {
        assert t.nodes[d].parent == Some(q) && depth[d] > depth[q];
      }
    }
    assert Layers(t.Add(p, c), lowered);
  }

  lemma AddedSeparates<N(!new)>(t: Tree<N>, p: N, c: N, depth: map<N, nat>)
    requires p in t.nodes && c in t.nodes && p != c
    requires t.nodes[c].parent.None? && t.nodes[p].kind == Directory && Layers(t.Add(p, c), depth)
    ensures exists below: set<N> :: Separates(t, below, c, p)
  {
    AddIs(t, p, c);
    var below := set n | n in t.nodes && depth[n] >= depth[c];
    assert depth[c] > depth[p];
    assert Separates(t, below, c, p);
  }

  lemma RemoveKeepsForest<N(!new)>(t: Tree<N>, p: N, k: nat)
    requires IsForest(t) && p in t.nodes && k < |t.nodes[p].children|
    requires t.nodes[p].children[k] in t.nodes && t.nodes[p].children[k] != p
    ensures IsForest(Remove(t, p, k))
  {
    hide Without, Remove;
    var depth: map<N, nat> :| Layers(t, depth);
    RemoveIs(t, p, k);
    assert Layers(Remove(t, p, k), depth);
  }

  // Runs

  datatype Edit<N> =
    | Create(node: N, name: string, kind: Kind, target: Option<N>)
    | Attach(parent: N, node: N)
    | Detach(parent: N, place: nat)

  /** Whether an edit is one that callers of fs.c may make: a node is added while it is
      nowhere else, and not to itself or below itself. */
  ghost predicate Allowed<N(!new)>(t: Tree<N>, edit: Edit<N>) {
    match edit
    case Create(c, _, _, target) => c !in t.nodes && (target.Some? ==> target.value in t.nodes)
    case Attach(p, c) =>
      && p in t.nodes && c in t.nodes && p != c && t.nodes[c].parent.None?
      && exists below: set<N> :: Separates(t, below, c, p)
    case Detach(p, k) =>
      && p in t.nodes && k < |t.nodes[p].children|
      && t.nodes[p].children[k] in t.nodes && t.nodes[p].children[k] != p
  }

  ghost function Apply<N(!new)>(t: Tree<N>, edit: Edit<N>): Tree<N>
    requires Allowed(t, edit)
  {
    match edit
    case Create(c, name, kind, target) => t.WithNode(c, name, kind, target)
    case Attach(p, c) => t.Add(p, c)
    case Detach(p, k) => Remove(t, p, k)
  }

  ghost predicate AllAllowed<N(!new)>(t: Tree<N>, edits: seq<Edit<N>>)
    decreases |edits|
  {
    edits == [] || (Allowed(t, edits[0]) && AllAllowed(Apply(t, edits[0]), edits[1..]))
  }

  ghost function ApplyAll<N(!new)>(t: Tree<N>, edits: seq<Edit<N>>): Tree<N>
    requires AllAllowed(t, edits)
    decreases |edits|
  {
    if edits == [] then t else ApplyAll(Apply(t, edits[0]), edits[1..])
  }

  /** A node without children can be added below any other. */
  lemma ChildlessSeparates<N(!new)>(t: Tree<N>, p: N, c: N)
    requires ParentsAgree(t) && t.Closed() && p in t.nodes && c in t.nodes && p != c && t.nodes[c].children == []
    ensures exists below: set<N> :: Separates(t, below, c, p)
  {
    forall d | d in t.nodes
      ensures t.nodes[d].parent != Some(c)
    {
      assert d in t.nodes[c].children <==> t.nodes[d].parent == Some(c);
    }
    assert Separates(t, {c}, c, p);
  }

  lemma CreateKeepsParents<N>(t: Tree<N>, c: N, name: string, kind: Kind, target: Option<N>, p: N, d: N)
    requires t.Closed() && ParentsAgree(t) && c !in t.nodes && (target.Some? ==> target.value in t.nodes)
    requires var t' := t.WithNode(c, name, kind, target); p in t'.nodes && d in t'.nodes
    ensures var t' := t.WithNode(c, name, kind, target); d in t'.nodes[p].children <==> t'.nodes[d].parent == Some(p)
  {
    if p != c && d != c {
      assert d in t.nodes[p].children <==> t.nodes[d].parent == Some(p);
    }
  }

  lemma CreateKeepsLayers<N>(t: Tree<N>, c: N, name: string, kind: Kind, target: Option<N>, depth: map<N, nat>)
    requires t.Closed() && c !in t.nodes && (target.Some? ==> target.value in t.nodes) && Layers(t, depth)
    ensures Layers(t.WithNode(c, name, kind, target), depth[c := 0])
  {
  }

  lemma CreateKeepsForest<N(!new)>(t: Tree<N>, c: N, name: string, kind: Kind, target: Option<N>)
    requires t.Closed() && c !in t.nodes && (target.Some? ==> target.value in t.nodes) && IsForest(t)
    ensures IsForest(t.WithNode(c, name, kind, target))
  {
    var depth: map<N, nat> :| Layers(t, depth);
    CreateKeepsLayers(t, c, name, kind, target, depth);
    hide Layers, Tree.Closed;
  }

  lemma WithNodeIs<N>(t: Tree<N>, c: N, name: string, kind: Kind, target: Option<N>)
    requires c !in t.nodes
    ensures var t' := t.WithNode(c, name, kind, target);
      && t'.root == t.root && t'.nodes.Keys == t.nodes.Keys + {c}
      && t'.nodes[c] == Node(name, kind, None, [], target)
      && forall n | n in t.nodes :: t'.nodes[n] == t.nodes[n]
  {
  }

  lemma CreateKeepsParentsAgree<N>(t: Tree<N>, c: N, name: string, kind: Kind, target: Option<N>)
    requires t.Closed() && ParentsAgree(t) && c !in t.nodes && (target.Some? ==> target.value in t.nodes)
    ensures ParentsAgree(t.WithNode(c, name, kind, target))
  {
    var t' := t.WithNode(c, name, kind, target);
    forall p, d | p in t'.nodes && d in t'.nodes
      ensures d in t'.nodes[p].children <==> t'.nodes[d].parent == Some(p)
    {
      CreateKeepsParents(t, c, name, kind, target, p, d);
    }
  }

  lemma CreateKeepsChildren<N>(t: Tree<N>, c: N, name: string, kind: Kind, target: Option<N>)
    requires c !in t.nodes && ChildrenDistinct(t) && OnlyDirectoriesHold(t)
    ensures var t' := t.WithNode(c, name, kind, target); ChildrenDistinct(t') && OnlyDirectoriesHold(t')
  {
    assert Distinct<N>([]);
    WithNodeIs(t, c, name, kind, target);
    hide Distinct, Tree.WithNode;
  }

  lemma CreateKeepsShape<N>(t: Tree<N>, c: N, name: string, kind: Kind, target: Option<N>)
    requires WellFormed(t) && c !in t.nodes && (target.Some? ==> target.value in t.nodes)
    ensures WellFormed(t.WithNode(c, name, kind, target))
  {
    hide ChildrenDistinct, OnlyDirectoriesHold, ParentsAgree, Tree.Closed, Tree.WithNode;
    CreateKeepsParentsAgree(t, c, name, kind, target);
    CreateKeepsChildren(t, c, name, kind, target);
  }

  lemma ApplyKeepsForest<N(!new)>(t: Tree<N>, edit: Edit<N>)
    requires WellFormed(t) && IsForest(t) && Allowed(t, edit)
    ensures WellFormed(Apply(t, edit)) && IsForest(Apply(t, edit))
  {
    match edit
    case Create(c, name, kind, target) => {
      CreateKeepsShape(t, c, name, kind, target);
      CreateKeepsForest(t, c, name, kind, target);
    }
    case Attach(p, c) => {
      AddKeepsShape(t, p, c);
      if t.nodes[p].kind == Directory {
        AddKeepsForestIff(t, p, c);
      }
    }
    case Detach(p, k) => {
      RemoveKeepsShape(t, p, k);
      RemoveKeepsForest(t, p, k);
    }
  }

  /** The tree that `fs_init` makes. */
  function RootOnly<N>(root: N): Tree<N> {
    Tree.Tree(root, map[root := Node("/", Directory, None, [], None)])
  }

  lemma RootIsForest<N(!new)>(root: N)
    ensures WellFormed(RootOnly(root)) && IsForest(RootOnly(root))
  {
    assert Layers(RootOnly(root), map[root := 0]);
  }

  /** Every run keeps the shape and a forest: each chain holds each node at most once, a
      node's parent is the directory whose chain it is on, and parents never form a loop. */
  lemma {:induction false} RunKeepsForest<N(!new)>(t: Tree<N>, edits: seq<Edit<N>>)
    requires WellFormed(t) && IsForest(t) && AllAllowed(t, edits)
    ensures WellFormed(ApplyAll(t, edits)) && IsForest(ApplyAll(t, edits))
    decreases |edits|
  {
    if edits != [] {
      hide WellFormed, IsForest, Allowed, Apply;
      ApplyKeepsForest(t, edits[0]);
      RunKeepsForest(Apply(t, edits[0]), edits[1..]);
    }
  }

  // Creating a file by its path

  lemma NoSlashComponents(name: string)
    requires '/' !in name
    ensures Components(name) == Pieces(name)
  {
    ComponentsArePieces(name);
    SplitPrepend(name, []);
    assert name + [] == name;
    assert Split(name) == [name];
    assert AllPieces([name]) == Pieces(name) + AllPieces([]);
  }

  /** A path resolves through the part before its last slash, whatever its length. */
  lemma ResolveThroughDirectory<N>(t: Tree<N>, path: string)
    requires t.Closed()
    ensures var d := t.Resolve(DirectoryPath(path));
            t.Resolve(path) == if d.None? then None else t.WalkAll(d.value, Pieces(FileName(path)))
  {
    hide Components, Pieces, Tree.WalkAll;
    assert t.root in t.nodes;
    hide Tree.Closed;
    NoSlashComponents(FileName(path));
    var k := LastSlash(path);
    hide LastSlash;
    if k.Some? {
      assert path == path[..k.value] + "/" + path[k.value + 1 ..];
      t.ResolveConcat(t.root, path[..k.value], path[k.value + 1 ..]);
    } else {
      t.ResolveEnd(t.root, "", 0);
      assert ""[0..] == "";
    }
  }

  lemma WalkOne<N>(t: Tree<N>, n: N, component: string)
    requires t.Closed() && n in t.nodes
    ensures t.WalkAll(n, [component]) == t.Walk(n, component)
  {
    var next := t.Walk(n, component);
    if next.Some? {
      assert t.WalkAll(next.value, []) == next;
    }
  }

  lemma WalkFirst<N>(t: Tree<N>, n: N, component: string, rest: seq<string>)
    requires t.Closed() && n in t.nodes
    ensures t.WalkAll(n, [component] + rest) ==
      if t.Walk(n, component).None? then None else t.WalkAll(t.Walk(n, component).value, rest)
  {
    assert ([component] + rest)[1..] == rest;
  }

  /** From a file a walk gets nowhere, or stays, or goes to its directory. */
  lemma WalkFromFile<N>(t: Tree<N>, c: N, rest: string)
    requires t.Closed() && c in t.nodes && t.nodes[c].kind == File && t.nodes[c].parent != Some(c)
    requires t.nodes[c].parent.Some? && rest != [] && '/' !in rest
    ensures t.WalkAll(c, Pieces(rest)) == Some(c) <==> rest == "."
  {
    if |rest| <= NAME_LENGTH {
      WalkOne(t, c, rest);
    } else {
      WalkFirst(t, c, rest[..NAME_LENGTH], Pieces(rest[NAME_LENGTH..]));
    }
  }

  /** Whether a path names the file that `syscall_open` creates for it: a name of more
      than 127 characters is stored short, but looked up in full. */
  predicate NamesCreated(name: string) {
    |name| <= 127 || name[127..] == "."
  }

  /** When `syscall_open` has created a file for a path, the path resolves to that very
      file exactly if its parent is a directory that holds no other child of the name as it
      is stored, and the name not too long; and every path that resolved before still
      resolves to the same node. */
  lemma CreatedFileResolvesIff<N>(t: Tree<N>, path: string, p: N, c: N)
    requires t.Closed() && c !in t.nodes && |DirectoryPath(path)| <= 255
    requires t.Resolve(path).None? && t.Resolve(ParentPath(path)) == Some(p)
    ensures var name := FileName(path); var t' := t.Created(p, c, StoredName(name));
      && (t'.Resolve(path) == Some(c) <==>
          t.nodes[p].kind == Directory && t.FindDir(p, StoredName(name)).None? && NamesCreated(name))
      && (forall q :: t.Resolve(q).Some? ==> t'.Resolve(q) == t.Resolve(q))
  {
    hide LastSlash, Components, Pieces, Tree.Created, Tree.WalkAll, Tree.FindDir;
    var name := FileName(path);
    var t' := t.Created(p, c, StoredName(name));
    forall q
      ensures t.Resolve(q).Some? ==> t'.Resolve(q) == t.Resolve(q)
    {
      t.CreationKeepsWalks(p, c, StoredName(name), t.root, Components(q));
    }
    ResolveThroughDirectory(t, path);
    ResolveThroughDirectory(t', path);
    LastPartResolvesIff(t, name, p, c);
  }

  lemma LastPartResolvesIff<N>(t: Tree<N>, name: string, p: N, c: N)
    requires t.Closed() && c !in t.nodes && p in t.nodes && '/' !in name
    requires t.WalkAll(p, Pieces(name)).None?
    ensures t.Created(p, c, StoredName(name)).WalkAll(p, Pieces(name)) == Some(c)
       <==> t.nodes[p].kind == Directory && t.FindDir(p, StoredName(name)).None? && NamesCreated(name)
  {
    var stored := StoredName(name);
    var t' := t.Created(p, c, stored);
    if t.nodes[p].kind != Directory || t.FindDir(p, stored).Some? {
      t.ShadowedWalks(p, c, stored, p, Pieces(name));
    } else if |name| <= NAME_LENGTH {
      WalkOne(t, p, name);
      WalkOne(t', p, name);
      t.WalkInCreated(p, c, stored, p, name);
    } else {
      var rest := name[NAME_LENGTH..];
      WalkFirst(t', p, stored, Pieces(rest));
      t.WalkInCreated(p, c, stored, p, stored);
      WalkFromFile(t', c, rest);
    }
  }

  // Creating a file behind a directory path that is cut

  lemma {:induction false} ComponentsAreNonEmpty(path: string)
    ensures "" !in Components(path)
    decreases |path|
  {
    if path != [] {
      var n := Span(path);
      if n == 0 {
        ComponentsAreNonEmpty(path[1..]);
      } else {
        ComponentsAreNonEmpty(SkipSlash(path[n..]));
      }
    }
  }

  /** A new file is not found by components other than its name, nor by "." or "..". */
  lemma {:induction false} UnnamedWalks<N>(t: Tree<N>, p: N, c: N, name: string, n: N, components: seq<string>)
    requires t.Closed() && p in t.nodes && c !in t.nodes && n in t.nodes
    requires name in {".", ".."} || name !in components
    ensures t.Created(p, c, name).WalkAll(n, components) == t.WalkAll(n, components)
    decreases |components|
  {
    if components != [] {
      t.WalkInCreated(p, c, name, n, components[0]);
      if t.Walk(n, components[0]).Some? {
        UnnamedWalks(t, p, c, name, t.Walk(n, components[0]).value, components[1..]);
      }
    }
  }

  /** For a name of up to 127 characters this holds of every path: of one whose directory
      path is cut, so that the file is created in some directory p on the way or beside it,
      exactly if the whole of that directory path leads to p as well. It is enough to look
      before the creation, unless the directory path only resolves through the new file. */
  lemma CutPathResolvesIff<N>(t: Tree<N>, path: string, p: N, c: N)
    requires t.Closed() && c !in t.nodes && |FileName(path)| <= NAME_LENGTH
    requires t.Resolve(path).None? && t.Resolve(ParentPath(path)) == Some(p)
    ensures var name, d := FileName(path), DirectoryPath(path); var t' := t.Created(p, c, name);
      && (t'.Resolve(path) == Some(c) <==>
          t'.Resolve(d) == Some(p) && t.nodes[p].kind == Directory && t.FindDir(p, name).None?)
      && (name !in Components(d) || t.Resolve(d).Some? ==>
          (t'.Resolve(path) == Some(c) <==>
           t.Resolve(d) == Some(p) && t.nodes[p].kind == Directory && t.FindDir(p, name).None?))
  {
    hide LastSlash, Components, Pieces, Tree.Created, Tree.WalkAll, Tree.FindDir, FileName, DirectoryPath;
    var name := FileName(path);
    CreatedPathResolvesIff(t, path, p, c);
    if t.Resolve(DirectoryPath(path)).Some? {
      t.CreationKeepsWalks(p, c, name, t.root, Components(DirectoryPath(path)));
    } else if name !in Components(DirectoryPath(path)) {
      UnnamedWalks(t, p, c, name, t.root, Components(DirectoryPath(path)));
    }
  }

  lemma CreatedPathResolvesIff<N>(t: Tree<N>, path: string, p: N, c: N)
    requires t.Closed() && c !in t.nodes && |FileName(path)| <= NAME_LENGTH
    requires t.Resolve(path).None? && t.Resolve(ParentPath(path)) == Some(p)
    ensures var name := FileName(path); var t' := t.Created(p, c, name);
      t'.Resolve(path) == Some(c) <==>
        t'.Resolve(DirectoryPath(path)) == Some(p) && t.nodes[p].kind == Directory && t.FindDir(p, name).None?
  {
    hide LastSlash, Components, Pieces, Tree.Created, Tree.WalkAll, Tree.FindDir, FileName;
    var name := FileName(path);
    var t' := t.Created(p, c, name);
    ResolveThroughDirectory(t, path);
    ResolveThroughDirectory(t', path);
    if name in {"", ".", ".."} {
      ComponentsAreNonEmpty(DirectoryPath(path));
      UnnamedWalks(t, p, c, name, t.root, Components(DirectoryPath(path)));
      SpecialWalks(t, p, name);
      ComponentsAreNonEmpty(path);
      UnnamedWalks(t, p, c, name, t.root, Components(path));
    } else if t'.Resolve(DirectoryPath(path)).Some? {
      assert Pieces(name) == [name] by { ShortPiece(name); }
      var d := t'.Resolve(DirectoryPath(path)).value;
      WalkOne(t', d, name);
      WalkToCreatedIff(t, p, c, name, d);
    }
  }

  lemma ShortPiece(name: string)
    requires 0 < |name| <= NAME_LENGTH
    ensures Pieces(name) == [name]
  {
  }

  lemma SpecialWalks<N>(t: Tree<N>, n: N, name: string)
    requires t.Closed() && n in t.nodes && name in {"", ".", ".."}
    ensures t.WalkAll(n, Pieces(name)).Some?
  {
    if name != "" {
      WalkOne(t, n, name);
    }
  }

  /** An ordinary name leads from a node to the new file exactly if it is found there. */
  lemma WalkToCreatedIff<N>(t: Tree<N>, p: N, c: N, name: string, d: N)
    requires t.Closed() && p in t.nodes && c !in t.nodes && d in t.Created(p, c, name).nodes
    requires name !in {".", ".."}
    ensures t.Created(p, c, name).Walk(d, name) == Some(c)
       <==> d == p && t.nodes[p].kind == Directory && t.FindDir(p, name).None?
  {
    hide Tree.Closed, Tree.Created, Tree.Walk, Tree.FindDir;
    if d == c {
      WalkInFile(t.Created(p, c, name), c, name);
    } else {
      t.WalkInCreated(p, c, name, d, name);
    }
  }

  lemma WalkInFile<N>(t: Tree<N>, c: N, name: string)
    requires t.Closed() && c in t.nodes && t.nodes[c].kind == File && name !in {".", ".."}
    ensures t.Walk(c, name).None?
  {
  }

  // Which paths lead to a new file

  /** Components without dots at the end. */
  function Undotted(components: seq<string>): (r: seq<string>)
    ensures r != [] ==> r[|r| - 1] != "."
    ensures forall x | x in r :: x in components
  {
    if components == [] || components[|components| - 1] != "." then components
    else Undotted(components[..|components| - 1])
  }

  /** The number of dots at the front. */
  function Dots(components: seq<string>): (n: nat)
    ensures n <= |components| && (n < |components| ==> components[n] != ".")
  {
    if components == [] || components[0] != "." then 0 else 1 + Dots(components[1..])
  }

  /** Whether a new file of that name can be found in p at all. */
  ghost predicate CanBeFound<N>(t: Tree<N>, p: N, name: string)
    requires t.Closed() && p in t.nodes
  {
    t.nodes[p].kind == Directory && t.FindDir(p, name).None? && name !in {"", ".", ".."}
  }

  /** Where components lead in the tree as it is, if the name may be followed at p, by dots
      and "..", back to p. */
  function Detour<N>(t: Tree<N>, p: N, name: string, n: N, components: seq<string>): (r: Option<N>)
    requires t.Closed() && p in t.nodes && n in t.nodes
    ensures r.Some? ==> r.value in t.nodes
    decreases |components|
  {
    if components == [] then Some(n)
    else if n == p && components[0] == name then
      var k := 1 + Dots(components[1..]);
      if k < |components| && components[k] == ".." then Detour(t, p, name, p, components[k + 1..]) else None
    else
      var next := t.Walk(n, components[0]);
      if next.None? then None else Detour(t, p, name, next.value, components[1..])
  }

  /** From the new file dots stay, ".." goes back to p, and nothing else leads anywhere. */
  lemma {:induction false} WalkFromNew<N>(t: Tree<N>, p: N, c: N, rest: seq<string>)
    requires t.Closed() && c in t.nodes && t.nodes[c].kind == File && t.nodes[c].parent == Some(p) && p in t.nodes
    ensures var k := Dots(rest);
      t.WalkAll(c, rest) ==
        if k == |rest| then Some(c) else if rest[k] == ".." then t.WalkAll(p, rest[k + 1..]) else None
    decreases |rest|
  {
    if rest != [] {
      if rest[0] == "." {
        WalkFromNew(t, p, c, rest[1..]);
        assert t.Walk(c, ".") == Some(c);
      } else if rest[0] != ".." {
        WalkInFile(t, c, rest[0]);
      }
    }
  }

  lemma WalkRest<N>(t: Tree<N>, n: N, components: seq<string>)
    requires t.Closed() && n in t.nodes && components != []
    ensures t.WalkAll(n, components) ==
      if t.Walk(n, components[0]).None? then None else t.WalkAll(t.Walk(n, components[0]).value, components[1..])
  {
    hide Tree.Walk;
  }

  lemma StepWithNew<N>(t: Tree<N>, p: N, c: N, name: string, n: N, component: string)
    requires t.Closed() && p in t.nodes && c !in t.nodes && n in t.nodes && CanBeFound(t, p, name)
    ensures var t' := t.Created(p, c, name);
      && t'.Walk(n, component) == (if n == p && component == name then Some(c) else t.Walk(n, component))
      && t'.nodes[c].kind == File && t'.nodes[c].parent == Some(p)
  {
    hide Tree.Created, Tree.Walk, Tree.FindDir;
    t.WalkInCreated(p, c, name, n, component);
  }

  /** Whether components lead in the tree with the new file where their detour does, or to
      the file. */
  ghost predicate LeadsAlong<N>(t: Tree<N>, p: N, c: N, name: string, n: N, components: seq<string>)
    requires t.Closed() && p in t.nodes && c !in t.nodes && n in t.nodes
  {
    var r := t.Created(p, c, name).WalkAll(n, components);
    Detour(t, p, name, n, components) == if r == Some(c) then None else r
  }

  lemma LeadsNowhere<N>(t: Tree<N>, p: N, c: N, name: string, n: N)
    requires t.Closed() && p in t.nodes && c !in t.nodes && n in t.nodes
    ensures LeadsAlong(t, p, c, name, n, [])
  {
    hide Tree.Created;
    assert t.Created(p, c, name).WalkAll(n, []) == Some(n);
  }

  lemma LeadsThroughNew<N>(t: Tree<N>, p: N, c: N, name: string, components: seq<string>)
    requires t.Closed() && p in t.nodes && c !in t.nodes && CanBeFound(t, p, name)
    requires components != [] && components[0] == name
    requires var k := 1 + Dots(components[1..]);
      k < |components| && components[k] == ".." ==> LeadsAlong(t, p, c, name, p, components[k + 1..])
    ensures LeadsAlong(t, p, c, name, p, components)
  {
    hide Tree.Closed, Tree.Created, Tree.Walk, Tree.WalkAll, Tree.FindDir, CanBeFound, Dots;
    var t' := t.Created(p, c, name);
    StepWithNew(t, p, c, name, p, name);
    WalkRest(t', p, components);
    WalkFromNew(t', p, c, components[1..]);
    var k := 1 + Dots(components[1..]);
    if k < |components| {
      assert components[1..][k - 1] == components[k] && components[1..][k..] == components[k + 1..];
    }
  }

  lemma LeadsPastNew<N>(t: Tree<N>, p: N, c: N, name: string, n: N, components: seq<string>)
    requires t.Closed() && p in t.nodes && c !in t.nodes && n in t.nodes && CanBeFound(t, p, name)
    requires components != [] && (n != p || components[0] != name)
    requires var next := t.Walk(n, components[0]);
      next.Some? ==> LeadsAlong(t, p, c, name, next.value, components[1..])
    ensures LeadsAlong(t, p, c, name, n, components)
  {
    hide Tree.Closed, Tree.Created, Tree.Walk, Tree.WalkAll, Tree.FindDir, CanBeFound, Dots;
    StepWithNew(t, p, c, name, n, components[0]);
    WalkRest(t.Created(p, c, name), n, components);
  }

  lemma {:induction false} WalksAreDetours<N>(t: Tree<N>, p: N, c: N, name: string, n: N, components: seq<string>)
    requires t.Closed() && p in t.nodes && c !in t.nodes && n in t.nodes && CanBeFound(t, p, name)
    ensures LeadsAlong(t, p, c, name, n, components)
    decreases |components|
  {
    hide Tree.Closed, Tree.Walk, Tree.WalkAll, Tree.Created, CanBeFound, LeadsAlong, Detour, Dots;
    if components == [] {
      LeadsNowhere(t, p, c, name, n);
    } else {
      if n == p && components[0] == name {
        var k := 1 + Dots(components[1..]);
        if k < |components| {
          WalksAreDetours(t, p, c, name, p, components[k + 1..]);
        }
        LeadsThroughNew(t, p, c, name, components);
      } else {
        if t.Walk(n, components[0]).Some? {
          WalksAreDetours(t, p, c, name, t.Walk(n, components[0]).value, components[1..]);
        }
        LeadsPastNew(t, p, c, name, n, components);
      }
    }
  }

  lemma WalkLast<N>(t: Tree<N>, n: N, components: seq<string>)
    requires t.Closed() && n in t.nodes && components != []
    ensures var front, last := components[..|components| - 1], components[|components| - 1];
      t.WalkAll(n, components) == if t.WalkAll(n, front).None? then None else t.Walk(t.WalkAll(n, front).value, last)
  {
    hide Tree.Walk, Tree.WalkAll, Tree.Closed;
    var front, last := components[..|components| - 1], components[|components| - 1];
    assert front + [last] == components;
    t.WalkConcat(n, front, [last]);
    if t.WalkAll(n, front).Some? {
      WalkOne(t, t.WalkAll(n, front).value, last);
    }
  }

  lemma {:induction false} UndottedWalks<N>(t: Tree<N>, n: N, components: seq<string>)
    requires t.Closed() && n in t.nodes
    ensures t.WalkAll(n, components) == t.WalkAll(n, Undotted(components))
    decreases |components|
  {
    if components != [] && components[|components| - 1] == "." {
      WalkLast(t, n, components);
      UndottedWalks(t, n, components[..|components| - 1]);
    }
  }

  /** After a file has been created below p, whatever its name, a path resolves to it exactly
      if a new file can be found in p, the components of the path, without dots at the end,
      end with its name as it is stored, and those before lead to p. */
  lemma NewFileResolvesIff<N>(t: Tree<N>, p: N, c: N, name: string, path: string)
    requires t.Closed() && p in t.nodes && c !in t.nodes
    ensures var components := Undotted(Components(path));
      t.Created(p, c, name).Resolve(path) == Some(c) <==>
        && CanBeFound(t, p, name)
        && components != [] && components[|components| - 1] == name
        && Detour(t, p, name, t.root, components[..|components| - 1]) == Some(p)
  {
    hide Components, Tree.Created, Tree.WalkAll, Tree.FindDir, Undotted, Detour;
    var t' := t.Created(p, c, name);
    if !CanBeFound(t, p, name) {
      if name in {"", ".", ".."} {
        ComponentsAreNonEmpty(path);
        UnnamedWalks(t, p, c, name, t.root, Components(path));
      } else {
        t.ShadowedWalks(p, c, name, t.root, Components(path));
      }
    } else {
      UndottedWalks(t', t.root, Components(path));
      EndsAtNewIff(t, p, c, name, t.root, Undotted(Components(path)));
    }
  }

  lemma EndsAtNewIff<N>(t: Tree<N>, p: N, c: N, name: string, n: N, components: seq<string>)
    requires t.Closed() && p in t.nodes && c !in t.nodes && n in t.nodes && CanBeFound(t, p, name)
    requires components != [] ==> components[|components| - 1] != "."
    ensures t.Created(p, c, name).WalkAll(n, components) == Some(c) <==>
      && components != [] && components[|components| - 1] == name
      && Detour(t, p, name, n, components[..|components| - 1]) == Some(p)
  {
    var t' := t.Created(p, c, name);
    if components == [] {
      assert t'.WalkAll(n, []) == Some(n);
    } else {
      hide Tree.Created, Tree.WalkAll, Tree.Walk, Tree.FindDir, Detour;
      var front, last := components[..|components| - 1], components[|components| - 1];
      WalkLast(t', n, components);
      WalksAreDetours(t, p, c, name, n, front);
      if t'.WalkAll(n, front) == Some(c) {
        WalkOnFromNew(t', p, c, last);
      } else if t'.WalkAll(n, front).Some? {
        t.WalkInCreated(p, c, name, t'.WalkAll(n, front).value, last);
      }
    }
  }

  lemma WalkOnFromNew<N>(t: Tree<N>, p: N, c: N, component: string)
    requires t.Closed() && c in t.nodes && t.nodes[c].kind == File && t.nodes[c].parent == Some(p) && p != c
    requires component != "."
    ensures t.Walk(c, component) != Some(c)
  {
  }

  // The tree of fs_test

  /** /home/user1/etc_link links to the directory /etc, which holds the file passwd. */
  ghost predicate FsTestTree<N>(t: Tree<N>, home: N, user1: N, link: N, etc: N, passwd: N) {
    && t.Closed() && {home, user1, link, etc, passwd} <= t.nodes.Keys
    && t.FindDir(t.root, "home") == Some(home) && t.nodes[home].kind == Directory
    && t.FindDir(home, "user1") == Some(user1) && t.nodes[user1].kind == Directory
    && t.FindDir(user1, "etc_link") == Some(link) && t.nodes[link].kind == Symlink && t.nodes[link].target == Some(etc)
    && t.FindDir(t.root, "etc") == Some(etc) && t.nodes[etc].kind == Directory && t.nodes[etc].parent == Some(t.root)
    && t.FindDir(etc, "passwd") == Some(passwd) && t.nodes[passwd].kind == File
  }

  /** Two directories down and through a link. */
  lemma DescendThroughLink<N>(t: Tree<N>, a: string, b: string, l: string, q: string, dir: N, sub: N, link: N)
    requires t.Closed() && dir in t.nodes && sub in t.nodes && link in t.nodes
    requires IsPlainName(a) && IsPlainName(b) && IsPlainName(l)
    requires t.FindDir(t.root, a) == Some(dir) && t.nodes[dir].kind == Directory
    requires t.FindDir(dir, b) == Some(sub) && t.nodes[sub].kind == Directory
    requires t.FindDir(sub, l) == Some(link) && t.nodes[link].kind == Symlink && t.nodes[link].target.Some?
    ensures t.Resolve("/" + (a + "/" + (b + "/" + (l + "/" + q)))) == t.ResolveFrom(t.nodes[link].target.value, q)
  {
    assert t.root in t.nodes;
    hide Tree.Closed, Tree.FindDir, Tree.Walk, Tree.ResolveFrom, IsPlainName;
    var path := a + "/" + (b + "/" + (l + "/" + q));
    assert ("/" + path)[1..] == path;
    t.ResolveBehindSlash(t.root, "/" + path);
    t.ResolveThroughChild(t.root, a, b + "/" + (l + "/" + q));
    t.ResolveThroughChild(dir, b, l + "/" + q);
    t.ResolveThroughLink(sub, l, q);
  }

  /** The path that `fs_test` resolves leads through the link to the file in /etc, as the path
      without the link does; and ".." behind the link leads to the root. */
  lemma FsTestResolves<N>(t: Tree<N>, home: N, user1: N, link: N, etc: N, passwd: N)
    requires FsTestTree(t, home, user1, link, etc, passwd)
    ensures t.Resolve("/home/user1/etc_link/passwd") == Some(passwd)
    ensures t.Resolve("/home/user1/etc_link/..") == Some(t.root)
  {
    hide Tree.Closed, Tree.FindDir, Tree.Walk, Tree.ResolveFrom, Tree.Resolve;
    DescendThroughLink(t, "home", "user1", "etc_link", "passwd", home, user1, link);
    DescendThroughLink(t, "home", "user1", "etc_link", "..", home, user1, link);
    t.ResolveOne(etc, "passwd");
    t.WalkToChild(etc, "passwd");
    t.ResolveOne(etc, "..");
    t.WalkDots(etc);
    hide FsTestTree;
    FsTestPaths();
  }

  lemma FsTestPaths()
    ensures "/" + ("home" + "/" + ("user1" + "/" + ("etc_link" + "/" + "passwd"))) == "/home/user1/etc_link/passwd"
    ensures "/" + ("home" + "/" + ("user1" + "/" + ("etc_link" + "/" + ".."))) == "/home/user1/etc_link/.."
  {
  }

  // The directory path of a created file

  /** How much of a directory path `fs_get_parent_dir` resolves: 255 characters at most. */
  lemma ParentPathIs(path: string)
    ensures ParentPath(path) <= DirectoryPath(path)
    ensures |ParentPath(path)| == if |DirectoryPath(path)| <= 255 then |DirectoryPath(path)| else 255
  {
  }
}
