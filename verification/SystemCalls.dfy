/** The file calls of syscall.c, refining the descriptors of DescriptorSpec. */
module SystemCalls {
  import opened FsSpec
  import opened Prelude
  import opened DescriptorSpec
  import Files = FileSystem

  const O_CREAT: bv32 := 0x100
  const O_TRUNC: bv32 := 0x200
  const O_APPEND: bv32 := 0x400

  /** `fd_entry_t`, without its flags, which are never used. */
  datatype FdEntry = FdEntry(used: bool, node: Files.FsNode?, offset: nat)

  ghost predicate Shows(entry: FdEntry, d: Descriptor<Files.FsNode>) {
    entry == if d.Open? then FdEntry(true, d.node, d.offset) else FdEntry(false, null, 0)
  }

  ghost predicate ShowsAll(fdTable: array<FdEntry>, table: seq<Descriptor<Files.FsNode>>)
    reads fdTable
  {
    && fdTable.Length == |table| == MAX_FD
    && forall fd | 0 <= fd < MAX_FD :: Shows(fdTable[fd], table[fd])
  }

  /** The fields of these nodes say what is known of their contents. */
  ghost predicate Holds(files: map<Files.FsNode, FileData>)
    reads files.Keys`mask, files.Keys`contents, files.Keys`length
  {
    forall n | n in files :: files[n] == FileData(n.mask, n.contents, n.length)
  }

  lemma ShowsUpdated(fdTable: array<FdEntry>, table: seq<Descriptor<Files.FsNode>>, fd: nat,
                     d: Descriptor<Files.FsNode>)
    requires fd < fdTable.Length == |table| == MAX_FD && Shows(fdTable[fd], d)
    requires forall k | 0 <= k < MAX_FD && k != fd :: Shows(fdTable[k], table[k])
    ensures ShowsAll(fdTable, table[fd := d])
  {
  }

  ghost predicate HoldsBut(files: map<Files.FsNode, FileData>, n: Files.FsNode)
    reads (files.Keys - {n})`mask, (files.Keys - {n})`contents, (files.Keys - {n})`length
  {
    forall m | m in files && m != n :: files[m] == FileData(m.mask, m.contents, m.length)
  }

  lemma HoldsButOne(files: map<Files.FsNode, FileData>, n: Files.FsNode)
    requires Holds(files)
    ensures HoldsBut(files, n) && (n in files ==> files[n] == FileData(n.mask, n.contents, n.length))
  {
  }

  lemma HoldsUpdated(files: map<Files.FsNode, FileData>, n: Files.FsNode)
    requires HoldsBut(files, n)
    ensures Holds(files[n := FileData(n.mask, n.contents, n.length)])
  {
  }

  /** `krealloc`: the first 256 bytes of the old block, as far as it goes, and what the new
      block holds otherwise. */
  function Reallocated(block: seq<byte>, size: nat, stale: nat -> byte): (r: seq<byte>)
    ensures |r| == size
  {
    seq(size, k requires 0 <= k < size => if k < COPIED && k < |block| then block[k] else stale(k))
  }

  lemma ReallocatedGrows(f: FileData, size: nat, stale: nat -> byte)
    requires f.Sound() && f.length < size
    ensures Reallocated(f.Block(), size, stale)[..f.length] + seq(size - f.length, _ => 0) == Grown(f, size, stale)
  {
  }

  function NoneOpen(root: Files.FsNode): State<Files.FsNode> {
    State<Files.FsNode>.State(seq(MAX_FD, _ => Closed), map[root := FileData(3, None, 0)])
  }

  class SystemCalls {
    const fdTable: array<FdEntry>
    const fs: Files.FileSystem

    ghost var state: State<Files.FsNode>

    ghost predicate Valid()
      reads this, fdTable, fs, fs.tree.nodes.Keys
    {
      && fs.Valid() && fs.tree.Closed()
      && state.Inv() && ShowsAll(fdTable, state.table)
      && state.files.Keys == fs.tree.nodes.Keys && Holds(state.files)
    }

    /** The table before any call, and a file system from `fs_init`. */
    constructor ()
      ensures Valid() && fresh(fdTable) && fresh(fs) && fresh(fs.root)
      ensures fs.tree == RootOnly<Files.FsNode>(fs.root)
      ensures state == NoneOpen(fs.root)
    {
      hide Files.FileSystem.Valid;
      var table := new FdEntry[32](_ => FdEntry(false, null, 0));
      var files := new Files.FileSystem();
      fdTable := table;
      fs := files;
      state := NoneOpen(files.root);
    }

    /** One entry of the table takes a new value. */
    method SetEntry(fd: nat, entry: FdEntry, ghost d: Descriptor<Files.FsNode>, ghost next: State<Files.FsNode>)
      requires fd < 32 && ShowsAll(fdTable, state.table) && Shows(entry, d) && next.table == state.table[fd := d]
      modifies `state, fdTable
      ensures ShowsAll(fdTable, state.table) && state == next
    {
      fdTable[fd] := entry;
      ShowsUpdated(fdTable, state.table, fd, d);
      state := next;
    }

    /** `syscall_close`. */
    method Close(fd: int) returns (status: int)
      requires Valid()
      modifies `state, fdTable
      ensures Valid() && (state, status) == DescriptorSpec.Close(old(state), fd)
    {
      hide Files.FileSystem.Valid, Holds, ShowsAll, State.Inv, Tree.Closed;
      EntryIs(fd);
      if fd < 0 || fd >= 32 || fd <= 2 {
        return -1;
      }
      if !fdTable[fd].used {
        return -1;
      }
      SetEntry(fd, FdEntry(false, null, 0), Closed, DescriptorSpec.Close(state, fd).0);
      status := 0;
    }

    /** What the table says of a descriptor. */
    lemma EntryIs(fd: int)
      requires state.Inv() && ShowsAll(fdTable, state.table)
      ensures |state.table| == fdTable.Length == MAX_FD
      ensures 0 <= fd < 32 ==> Shows(fdTable[fd], state.table[fd])
      ensures 0 <= fd < 3 ==> !state.IsOpen(fd)
      ensures state.IsOpen(fd) ==> state.table[fd].node in state.files && state.files[state.table[fd].node].Sound()
      ensures state.IsOpen(fd) ==> state.table[fd].offset < U32
    {
    }

    /** `find_free_fd`. */
    method FindFreeFd() returns (fd: int)
      requires ShowsAll(fdTable, state.table)
      ensures fd == var free := FreeFd(state.table, 3); if free.None? then -1 else free.value
    {
      fd := 3;
      while fd < 32
        invariant 3 <= fd <= 32 && FreeFd(state.table, fd) == FreeFd(state.table, 3)
      {
        if !fdTable[fd].used {
          return;
        }
        fd := fd + 1;
      }
      return -1;
    }

    /** The copying of `syscall_read`. */
    static method CopyOut(node: Files.FsNode, offset: nat, count: nat, buf: array<byte>, beyond: nat -> byte,
                          ghost f: FileData)
      returns (readSize: nat)
      requires f == FileData(node.mask, node.contents, node.length) && count <= buf.Length
      modifies buf
      ensures readSize == if f.contents.None? then 0 else ReadSize(f.length, offset, count)
      ensures buf[..] ==
        (if f.contents.None? then [] else Fetched(f.Block(), offset, readSize, beyond)) + old(buf[readSize..])
    {
      readSize := 0;
      if node.contents.Some? {
        var remaining := (node.length - offset) % U32;
        readSize := if count > remaining then remaining else count;
        var bytes := Fetched(node.contents.value, offset, readSize, beyond);
        forall i | 0 <= i < readSize {
          buf[i] := bytes[i];
        }
      }
    }

    /** `syscall_read`, for files, into a buffer that is not the descriptor table. */
    method Read(fd: int, buf: array<byte>, count: nat, beyond: nat -> byte) returns (n: int)
      requires (fdTable as object) != buf
      requires Valid() && count <= buf.Length
      modifies `state, fdTable, buf
      ensures Valid() && state == DescriptorSpec.Read(old(state), fd, count, beyond).0
      ensures var bytes := DescriptorSpec.Read(old(state), fd, count, beyond).1;
        if bytes.None? then n == -1 && buf[..] == old(buf[..])
        else n == |bytes.value| <= buf.Length && buf[..] == bytes.value + old(buf[..])[n..]
    {
      hide Files.FileSystem.Valid, Holds, HoldsBut, ShowsAll, State.Inv, Tree.Closed;
      EntryIs(fd);
      if fd < 0 || fd >= 32 || !fdTable[fd].used {
        return -1;
      }
      var node := fdTable[fd].node;
      HoldsButOne(state.files, node);
      if node.mask & READ == 0 {
        return -1;
      }
      var offset := fdTable[fd].offset;
      n := CopyOut(node, offset, count, buf, beyond, state.files[node]);
      offset := (offset + n) % U32;
      SetEntry(fd, FdEntry(true, node, offset), Descriptor.Open(node, offset),
               DescriptorSpec.Read(state, fd, count, beyond).0);
    }

    /** The copying of `syscall_write`. */
    static method CopyIn(node: Files.FsNode, offset: nat, bytes: seq<byte>, stale: nat -> byte, ghost f: FileData)
      requires f == FileData(node.mask, node.contents, node.length)
      requires f.Sound() && offset + |bytes| < U32
      modifies node`contents, node`length
      ensures FileData(node.mask, node.contents, node.length) == Written(f, offset, bytes, stale)
    {
      var newSize := (offset + |bytes|) % U32;
      if newSize > node.length {
        var block := Reallocated(if node.contents.Some? then node.contents.value else [], newSize, stale);
        ReallocatedGrows(f, newSize, stale);
        node.contents := Some(block[..node.length] + seq(newSize - node.length, _ => 0));
        node.length := newSize;
      }
      if |bytes| > 0 {
        var block := node.contents.value;
        node.contents := Some(block[..offset] + bytes + block[offset + |bytes|..]);
        assert node.contents.value == Overwrite(block, offset, bytes);
      }
    }

    /** `syscall_write`, for files; what goes to the standard output is not kept here. */
    method Write(fd: int, bytes: seq<byte>, stale: nat -> byte) returns (n: int)
      requires Valid() && (state.IsOpen(fd) ==> Fits(state, fd, |bytes|))
      modifies `state, fdTable, fs.tree.nodes.Keys`contents, fs.tree.nodes.Keys`length
      ensures Valid() && (state, n) == DescriptorSpec.Write(old(state), fd, bytes, stale)
      ensures fs.tree == old(fs.tree)
    {
      hide Files.FileSystem.Valid, Holds, HoldsBut, ShowsAll, State.Inv, Tree.Closed, Written;
      EntryIs(fd);
      if fd < 0 || fd >= 32 {
        return -1;
      }
      if fd == 1 || fd == 2 {
        return |bytes|;
      }
      if !fdTable[fd].used {
        return -1;
      }
      var node := fdTable[fd].node;
      HoldsButOne(state.files, node);
      if node.mask & WRITE == 0 {
        return -1;
      }
      var offset := fdTable[fd].offset;
      CopyIn(node, offset, bytes, stale, state.files[node]);
      HoldsUpdated(state.files, node);
      SetEntry(fd, FdEntry(true, node, offset + |bytes|), Descriptor.Open(node, offset + |bytes|),
               DescriptorSpec.Write(state, fd, bytes, stale).0);
      n := |bytes|;
    }

    /** O_TRUNC in `syscall_open`. */
    static method Truncate(node: Files.FsNode, ghost f: FileData)
      requires f == FileData(node.mask, node.contents, node.length) && f.Sound()
      modifies node`contents, node`length
      ensures FileData(node.mask, node.contents, node.length) == Truncated(f)
    {
      if node.length > 0 && node.contents.Some? {
        var block := node.contents.value;
        node.contents := Some(seq(node.length, _ => 0) + block[node.length..]);
        node.length := 0;
      }
    }

    method TruncateNode(node: Files.FsNode)
      requires Valid() && node in fs.tree.nodes
      modifies `state, node`contents, node`length
      ensures Valid() && fs.tree == old(fs.tree)
      ensures old(state.files[node].Sound())
      ensures state == State(old(state).table, old(state).files[node := Truncated(old(state).files[node])])
    {
      hide Files.FileSystem.Valid, Holds, HoldsBut, ShowsAll, State.Inv, Tree.Closed, Truncated, OpenFile;
      FileIsSound(node);
      HoldsButOne(state.files, node);
      ghost var before := state;
      state := State(before.table, before.files[node := Truncated(before.files[node])]);
      Truncate(node, before.files[node]);
      HoldsUpdated(before.files, node);
      TruncateThenOpen(before, node, false);
    }

    /** The end of `syscall_open`, for a file that has been found or created. */
    method OpenNode(node: Files.FsNode, flags: bv32) returns (fd: int)
      requires Valid() && node in fs.tree.nodes
      modifies `state, fdTable, node`contents, node`length
      ensures Valid() && fs.tree == old(fs.tree)
      ensures (state, fd) == OpenFile(old(state), node, flags & 0x200 != 0, flags & 0x400 != 0)
    {
      hide Files.FileSystem.Valid, Holds, HoldsBut, ShowsAll, State.Inv, Tree.Closed, Truncated, OpenFile;
      if flags & O_TRUNC != 0 {
        TruncateThenOpen(state, node, flags & O_APPEND != 0);
        TruncateNode(node);
      }
      fd := TakeEntry(node, flags & O_APPEND != 0);
    }

    method TakeEntry(node: Files.FsNode, append: bool) returns (fd: int)
      requires Valid() && node in fs.tree.nodes
      modifies `state, fdTable
      ensures Valid() && (state, fd) == OpenFile(old(state), node, false, append)
    {
      hide Files.FileSystem.Valid, Holds, HoldsBut, ShowsAll, State.Inv, Tree.Closed, Truncated, FreeFd;
      EntryIs(3);
      HoldsButOne(state.files, node);
      fd := FindFreeFd();
      if fd < 0 {
        return -1;
      }
      var offset := if append then node.length else 0;
      SetEntry(fd, FdEntry(true, node, offset), Descriptor.Open(node, offset), OpenFile(state, node, false, append).0);
    }

    lemma KindIs(n: Files.FsNode)
      requires fs.Valid() && n in fs.tree.nodes
      ensures n.kind == fs.tree.nodes[n].kind
    {
      Files.MirrorOf(fs.tree, n);
    }

    lemma FileIsSound(n: Files.FsNode)
      requires state.Inv() && n in state.files
      ensures state.files[n].Sound()
    {
    }

    /** The creation of a file in `syscall_open`. */
    method CreateFile(pathname: string, parent: Files.FsNode) returns (node: Files.FsNode)
      requires Valid() && parent in fs.tree.nodes
      modifies `state, fs`tree
      modifies fs.tree.nodes.Keys`parent, fs.tree.nodes.Keys`children, fs.tree.nodes.Keys`next
      ensures Valid() && fresh(node) && node.kind == File && node in fs.tree.nodes
      ensures fs.tree == old(fs.tree).Created(parent, node, StoredName(FileName(pathname)))
      ensures state == WithFile(old(state), node)
    {
      hide Files.FileSystem.Valid, Holds, HoldsBut, ShowsAll, State.Inv, WithFile;
      hide Tree.Closed, Tree.Created, Tree.WithNode, Tree.Add, StoredName, FileName;
      var filename := FindFileName(pathname);
      node := CreateIn(parent, filename);
      NoteFile(node);
    }

    /** Takes a created file into the abstract state. */
    ghost method NoteFile(node: Files.FsNode)
      requires fs.Valid() && fs.tree.Closed() && state.Inv() && ShowsAll(fdTable, state.table) && Holds(state.files)
      requires node !in state.files && fs.tree.nodes.Keys == state.files.Keys + {node}
      requires node.mask == READ && node.contents == None && node.length == 0
      modifies `state
      ensures Valid() && state == WithFile(old(state), node)
    {
      hide Files.FileSystem.Valid, Holds, HoldsBut, ShowsAll, State.Inv, Tree.Closed;
      ghost var files := state.files;
      state := WithFile(state, node);
      HoldsButOne(files, node);
      HoldsUpdated(files, node);
    }

    static method FindFileName(pathname: string) returns (filename: string)
      ensures filename == FileName(pathname)
    {
      var lastSlash := LastSlash(pathname);
      filename := if lastSlash.Some? then pathname[lastSlash.value + 1..] else pathname;
    }

    /** The calls of fs.c by which a file is created. */
    method CreateIn(parent: Files.FsNode, filename: string) returns (node: Files.FsNode)
      requires fs.Valid() && fs.tree.Closed() && parent in fs.tree.nodes
      modifies fs`tree, fs.tree.nodes.Keys`parent, fs.tree.nodes.Keys`children, fs.tree.nodes.Keys`next
      ensures fs.Valid() && fresh(node) && node.kind == File
      ensures node.mask == 1 && node.contents == None && node.length == 0
      ensures fs.tree == old(fs.tree).Created(parent, node, StoredName(filename))
    {
      hide Files.FileSystem.Valid, Tree.Closed, StoredName, Tree.Add, Tree.WithNode;
      node := fs.CreateNode(filename, File);
      fs.AddNode(parent, node);
    }

    /** `syscall_open`: what the path resolves to is opened if it is a file; else, if asked
        for, a file is created where the path's parent is, and opened. */
    method Open(pathname: string, flags: bv32) returns (fd: int, ghost created: Files.FsNode?)
      requires Valid()
      modifies `state, fdTable, fs`tree, fs.tree.nodes.Keys
      ensures Valid()
      ensures var t, t' := old(fs.tree), fs.tree;
        var trunc, append := flags & 0x200 != 0, flags & 0x400 != 0;
        match t.Resolve(pathname)
        case Some(node) =>
          created == null && t' == t
          && (state, fd) ==
             if t.nodes[node].kind != File then (old(state), -1) else OpenFile(old(state), node, trunc, append)
        case None =>
          if flags & 0x100 == 0 || t.Resolve(ParentPath(pathname)).None? then
            created == null && t' == t && state == old(state) && fd == -1
          else
            created != null && fresh(created)
            && t' == t.Created(t.Resolve(ParentPath(pathname)).value, created, StoredName(FileName(pathname)))
            && (state, fd) == OpenFile(WithFile(old(state), created), created, trunc, append)
    {
      hide Files.FileSystem.Valid, Holds, HoldsBut, ShowsAll, State.Inv, Tree.Closed, Tree.Resolve, OpenFile;
      created := null;
      var node := fs.ResolvePath(pathname);
      if node == null {
        if flags & O_CREAT == 0 {
          return -1, null;
        }
        var parent := fs.GetParentDir(pathname);
        if parent == null {
          return -1, null;
        }
        node := CreateFile(pathname, parent);
        created := node;
      }
      KindIs(node);
      if node.kind != File {
        return -1, null;
      }
      fd := OpenNode(node, flags);
    }
  }
}
