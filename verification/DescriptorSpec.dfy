/** The descriptor table of syscall.c and the contents behind it, on values. */
module DescriptorSpec {
  import opened Prelude

  const U32 := 0x1_0000_0000
  const MAX_FD := 32

  /** How much of the old block `krealloc` copies. */
  const COPIED := 256

  const READ: bv32 := 1
  const WRITE: bv32 := 2

  /** What a node says about its contents: a block, of which length bytes are the text. */
  datatype FileData = FileData(mask: bv32, contents: Option<seq<byte>>, length: nat)
  {
    ghost predicate Sound() {
      length < U32 && length <= |Block()|
    }

    function Block(): seq<byte> {
      if contents.Some? then contents.value else []
    }

    function Text(): seq<byte>
      requires Sound()
    {
      Block()[..length]
    }
  }

  datatype Descriptor<N> = Closed | Open(node: N, offset: nat)

  datatype State<N(==)> = State(table: seq<Descriptor<N>>, files: map<N, FileData>)
  {
    predicate IsOpen(fd: int) {
      0 <= fd < |table| && table[fd].Open?
    }

    /** The standard descriptors are never in the table. */
    ghost predicate Inv() {
      && |table| == MAX_FD
      && (forall fd | 0 <= fd < 3 :: table[fd].Closed?)
      && (forall fd | IsOpen(fd) :: table[fd].node in files && table[fd].offset < U32)
      && (forall n | n in files :: files[n].Sound())
    }

    /** No descriptor stands behind the end of its file. */
    ghost predicate OffsetsInside()
      requires Inv()
    {
      forall fd | IsOpen(fd) :: table[fd].offset <= files[table[fd].node].length
    }
  }

  // Contents

  /** The text with these bytes over it from the offset on, and zeros before them if the
      text ends before. */
  function Overwrite(text: seq<byte>, offset: nat, bytes: seq<byte>): seq<byte> {
    if offset > |text| then text + seq(offset - |text|, _ => 0) + bytes
    else text[..offset] + bytes + if offset + |bytes| < |text| then text[offset + |bytes|..] else []
  }

  /** The block after `krealloc` and the zeroing behind the old length: only the first
      256 bytes are copied, the others are what the new block happens to hold. */
  function Grown(f: FileData, newSize: nat, stale: nat -> byte): (block: seq<byte>)
    requires f.Sound() && f.length < newSize
    ensures |block| == newSize
    ensures forall k | 0 <= k < newSize ::
      block[k] == if k >= f.length then 0 else if k < COPIED then f.Text()[k] else stale(k)
  {
    seq(newSize, k requires 0 <= k < newSize =>
      if k >= f.length then 0 else if k < COPIED then f.Text()[k] else stale(k))
  }

  /** What `syscall_write` makes of a file. */
  function Written(f: FileData, offset: nat, bytes: seq<byte>, stale: nat -> byte): (g: FileData)
    requires f.Sound() && offset + |bytes| < U32
    ensures g.Sound() && g.mask == f.mask
    ensures g.length == if offset + |bytes| > f.length then offset + |bytes| else f.length
  {
    var end := offset + |bytes|;
    var grown := if end > f.length then FileData(f.mask, Some(Grown(f, end, stale)), end) else f;
    if bytes == [] then grown else grown.(contents := Some(Overwrite(grown.Block(), offset, bytes)))
  }

  /** Whether a growing write finds its old bytes again. */
  ghost predicate KeepsOld(f: FileData, offset: nat, count: nat, stale: nat -> byte)
    requires f.Sound()
  {
    offset + count <= f.length || forall k | 256 <= k < offset && k < f.length :: stale(k) == f.Text()[k]
  }

  lemma WrittenByte(f: FileData, offset: nat, bytes: seq<byte>, stale: nat -> byte, k: nat)
    requires f.Sound() && offset + |bytes| < U32
    requires k < Written(f, offset, bytes, stale).length
    ensures Written(f, offset, bytes, stale).Text()[k] ==
      if offset <= k < offset + |bytes| then bytes[k - offset]
      else if k >= f.length then 0
      else if offset + |bytes| > f.length && k >= 256 then stale(k)
      else f.Text()[k]
  {
  }

  lemma OverwrittenByte(text: seq<byte>, offset: nat, bytes: seq<byte>, k: nat)
    ensures |Overwrite(text, offset, bytes)| == if offset + |bytes| > |text| then offset + |bytes| else |text|
    ensures k < |Overwrite(text, offset, bytes)| ==>
      Overwrite(text, offset, bytes)[k] ==
        if offset <= k < offset + |bytes| then bytes[k - offset] else if k < |text| then text[k] else 0
  {
  }

  /** A write lays its bytes over the text at the offset, and changes nothing else,
      exactly if no byte that was not copied has become another. */
  lemma WriteSplicesIff(f: FileData, offset: nat, bytes: seq<byte>, stale: nat -> byte)
    requires f.Sound() && offset + |bytes| < U32
    ensures Written(f, offset, bytes, stale).Text() == Overwrite(f.Text(), offset, bytes)
       <==> KeepsOld(f, offset, |bytes|, stale)
  {
    var text, wanted := Written(f, offset, bytes, stale).Text(), Overwrite(f.Text(), offset, bytes);
    forall k | 0 <= k < |text|
      ensures |wanted| == |text| && (text[k] == wanted[k] <==>
        k < COPIED || offset + |bytes| <= f.length || k >= offset || k >= f.length || stale(k) == f.Text()[k])
    {
      WrittenByte(f, offset, bytes, stale, k);
      OverwrittenByte(f.Text(), offset, bytes, k);
    }
    OverwrittenByte(f.Text(), offset, bytes, 0);
    hide Written, Overwrite;
    if text == wanted && offset + |bytes| > f.length {
      forall k | COPIED <= k < offset && k < f.length
        ensures stale(k) == f.Text()[k]
      {
        assert text[k] == wanted[k];
      }
    }
  }

  /** Whatever a new block holds, a write splices exactly if it does not grow the file or
      keeps no byte behind the first 256. */
  lemma AlwaysSplicesIff(f: FileData, offset: nat, bytes: seq<byte>)
    requires f.Sound() && offset + |bytes| < U32
    ensures (forall stale: nat -> byte ::
              Written(f, offset, bytes, stale).Text() == Overwrite(f.Text(), offset, bytes))
       <==> offset + |bytes| <= f.length || offset <= 256 || f.length <= 256
  {
    forall stale: nat -> byte
      ensures Written(f, offset, bytes, stale).Text() == Overwrite(f.Text(), offset, bytes)
         <==> KeepsOld(f, offset, |bytes|, stale)
    {
      WriteSplicesIff(f, offset, bytes, stale);
    }
    if offset + |bytes| > f.length && offset > COPIED && f.length > COPIED {
      var other: nat -> byte := k => f.Text()[COPIED] + 1;
      assert other(COPIED) != f.Text()[COPIED];
      assert !KeepsOld(f, offset, |bytes|, other);
    }
  }

  // The calls

  /** How many bytes `syscall_read` copies; the subtraction wraps. */
  function ReadSize(length: nat, offset: nat, count: nat): (n: nat)
    ensures n <= count
  {
    var remaining := (length - offset) % U32;
    if count > remaining then remaining else count
  }

  /** The copied bytes lie within the file, whatever the count, exactly if the offset does. */
  lemma ReadsInsideIff(length: nat, offset: nat, count: nat)
    requires length < U32 && offset < U32
    ensures offset + ReadSize(length, offset, count) <= length <==> offset <= length
    ensures offset <= length ==>
      ReadSize(length, offset, count) == if count < length - offset then count else length - offset
    ensures offset > length ==>
      ReadSize(length, offset, count) == if count < U32 - (offset - length) then count else U32 - (offset - length)
  {
  }

  /** n bytes of memory from the offset on, of the block or of what lies behind it. */
  function Fetched(block: seq<byte>, offset: nat, n: nat, beyond: nat -> byte): (bytes: seq<byte>)
    ensures |bytes| == n
    ensures offset + n <= |block| ==> bytes == block[offset..offset + n]
  {
    seq(n, k requires 0 <= k < n => if offset + k < |block| then block[offset + k] else beyond(offset + k))
  }

  /** `syscall_read`: the bytes read, or None for an error. */
  function Read<N>(s: State<N>, fd: int, count: nat, beyond: nat -> byte): (r: (State<N>, Option<seq<byte>>))
    requires s.Inv()
    ensures r.0.Inv() && r.0.files == s.files
  {
    if !s.IsOpen(fd) then (s, None)
    else
      var d := s.table[fd];
      var f := s.files[d.node];
      if f.mask & READ == 0 then (s, None)
      else if f.contents.None? then (s, Some([]))
      else
        var n := ReadSize(f.length, d.offset, count);
        (s.(table := s.table[fd := d.(offset := (d.offset + n) % U32)]), Some(Fetched(f.Block(), d.offset, n, beyond)))
  }

  /** Whether the bytes that a read copies are bytes of the file. */
  predicate InFile<N>(s: State<N>, fd: int, count: nat)
    requires s.Inv() && s.IsOpen(fd)
  {
    var d, f := s.table[fd], s.files[s.table[fd].node];
    d.offset + ReadSize(f.length, d.offset, count) <= f.length
  }

  /** Whether a write, if it is permitted, stays in the address space. */
  predicate Fits<N>(s: State<N>, fd: int, count: nat)
    requires s.Inv() && s.IsOpen(fd)
  {
    s.files[s.table[fd].node].mask & WRITE == 0 || s.table[fd].offset + count < U32
  }

  /** `syscall_write`: the number of bytes written, or -1. */
  function Write<N>(s: State<N>, fd: int, bytes: seq<byte>, stale: nat -> byte): (r: (State<N>, int))
    requires s.Inv() && (s.IsOpen(fd) ==> Fits(s, fd, |bytes|))
    ensures r.0.Inv()
  {
    if fd == 1 || fd == 2 then (s, |bytes|)
    else if !s.IsOpen(fd) then (s, -1)
    else
      var d := s.table[fd];
      var f := s.files[d.node];
      if f.mask & WRITE == 0 then (s, -1)
      else
        (State(s.table[fd := d.(offset := d.offset + |bytes|)],
               s.files[d.node := Written(f, d.offset, bytes, stale)]), |bytes|)
  }

  /** `find_free_fd`: the first unused entry behind the standard ones. */
  function FreeFd<N>(table: seq<Descriptor<N>>, i: nat): (fd: Option<nat>)
    requires i <= |table|
    ensures fd.Some? ==> i <= fd.value < |table| && table[fd.value].Closed?
    ensures fd.Some? ==> forall k | i <= k < fd.value :: table[k].Open?
    ensures fd.None? ==> forall k | i <= k < |table| :: table[k].Open?
    decreases |table| - i
  {
    if i == |table| then None else if table[i].Closed? then Some(i) else FreeFd(table, i + 1)
  }

  /** The effect of O_TRUNC on a file. */
  function Truncated(f: FileData): (g: FileData)
    requires f.Sound()
    ensures g.Sound() && g.mask == f.mask
    ensures g.Text() == if f.length > 0 then [] else f.Text()
  {
    if f.length > 0 && f.contents.Some? then
      FileData(f.mask, Some(seq(f.length, _ => 0) + f.Block()[f.length..]), 0)
    else f
  }

  /** `syscall_open`, of a file that has been found or created: its descriptor, or -1. */
  function OpenFile<N>(s: State<N>, node: N, truncate: bool, append: bool): (r: (State<N>, int))
    requires s.Inv() && node in s.files
    ensures r.0.Inv()
  {
    var files := if truncate then s.files[node := Truncated(s.files[node])] else s.files;
    var fd := FreeFd(s.table, 3);
    if fd.None? then (State(s.table, files), -1 as int)
    else
      var offset := if append then files[node].length else 0;
      (State(s.table[fd.value := Open(node, offset)], files), fd.value as int)
  }

  /** Truncating on opening is truncating and then opening. */
  lemma TruncateThenOpen<N>(s: State<N>, node: N, append: bool)
    requires s.Inv() && node in s.files
    ensures var t := State(s.table, s.files[node := Truncated(s.files[node])]);
      t.Inv() && OpenFile(s, node, true, append) == OpenFile(t, node, false, append)
  {
  }

  /** `syscall_close`. */
  function Close<N>(s: State<N>, fd: int): (r: (State<N>, int))
    requires s.Inv()
    ensures r.0.Inv() && r.0.files == s.files
  {
    if s.IsOpen(fd) then (s.(table := s.table[fd := Closed]), 0) else (s, -1)
  }

  /** A new file, as `fs_create_node` makes it: empty, and to be read only. */
  function WithFile<N>(s: State<N>, node: N): (t: State<N>)
    ensures s.Inv() && node !in s.files ==> t.Inv()
  {
    s.(files := s.files[node := FileData(READ, None, 0)])
  }

  // Runs

  datatype Call<N> =
    | CreateCall(node: N)
    | ReadCall(fd: int, count: nat, beyond: nat -> byte)
    | WriteCall(fd: int, bytes: seq<byte>, stale: nat -> byte)
    | OpenCall(node: N, truncate: bool, append: bool)
    | CloseCall(fd: int)

  /** Whether a call can be made: no file outgrows the address space, and no file is
      truncated behind which another descriptor stands. */
  ghost predicate Orderly<N>(s: State<N>, call: Call<N>)
    requires s.Inv()
  {
    match call
    case CreateCall(node) => node !in s.files
    case ReadCall(_, _, _) => true
    case WriteCall(fd, bytes, _) => s.IsOpen(fd) ==> Fits(s, fd, |bytes|)
    case OpenCall(node, truncate, _) => node in s.files && (truncate ==> AllAtStart(s, node))
    case CloseCall(_) => true
  }

  ghost predicate AllAtStart<N>(s: State<N>, node: N) {
    forall fd | s.IsOpen(fd) && s.table[fd].node == node :: s.table[fd].offset == 0
  }

  ghost function Step<N>(s: State<N>, call: Call<N>): (t: State<N>)
    requires s.Inv() && s.OffsetsInside() && Orderly(s, call)
    ensures t.Inv()
  {
    match call
    case CreateCall(node) => WithFile(s, node)
    case ReadCall(fd, count, beyond) => Read(s, fd, count, beyond).0
    case WriteCall(fd, bytes, stale) => Write(s, fd, bytes, stale).0
    case OpenCall(node, truncate, append) => OpenFile(s, node, truncate, append).0
    case CloseCall(fd) => Close(s, fd).0
  }

  lemma ReadKeepsOffsets<N>(s: State<N>, fd: int, count: nat, beyond: nat -> byte)
    requires s.Inv() && s.OffsetsInside()
    ensures (s.IsOpen(fd) ==> InFile(s, fd, count)) && Read(s, fd, count, beyond).0.OffsetsInside()
  {
    if s.IsOpen(fd) {
      ReadsInsideIff(s.files[s.table[fd].node].length, s.table[fd].offset, count);
    }
  }

  lemma WriteKeepsOffsets<N>(s: State<N>, fd: int, bytes: seq<byte>, stale: nat -> byte)
    requires s.Inv() && s.OffsetsInside() && Orderly(s, WriteCall(fd, bytes, stale))
    ensures Write(s, fd, bytes, stale).0.OffsetsInside()
  {
  }

  /** Truncation leaves every descriptor inside its file exactly if all those of the
      truncated file stand at its start. */
  lemma TruncationKeepsOffsetsIff<N>(s: State<N>, node: N, append: bool)
    requires s.Inv() && s.OffsetsInside() && node in s.files
    ensures OpenFile(s, node, true, append).0.OffsetsInside() <==> AllAtStart(s, node)
  {
    var t := OpenFile(s, node, true, append).0;
    forall fd | s.IsOpen(fd)
      ensures t.IsOpen(fd) && t.table[fd] == s.table[fd]
    {
    }
  }

  lemma OpenKeepsOffsets<N>(s: State<N>, node: N, append: bool)
    requires s.Inv() && s.OffsetsInside() && node in s.files
    ensures OpenFile(s, node, false, append).0.OffsetsInside()
  {
  }

  lemma CreateKeepsOffsets<N>(s: State<N>, node: N)
    requires s.Inv() && s.OffsetsInside() && node !in s.files
    ensures WithFile(s, node).OffsetsInside()
  {
  }

  lemma StepKeepsOffsets<N>(s: State<N>, call: Call<N>)
    requires s.Inv() && s.OffsetsInside() && Orderly(s, call)
    ensures call.ReadCall? && s.IsOpen(call.fd) ==> InFile(s, call.fd, call.count)
    ensures Step(s, call).OffsetsInside()
  {
    hide Read, Write, OpenFile, WithFile, State.OffsetsInside, InFile;
    match call
    case CreateCall(node) => CreateKeepsOffsets(s, node);
    case ReadCall(fd, count, beyond) => ReadKeepsOffsets(s, fd, count, beyond);
    case WriteCall(fd, bytes, stale) => WriteKeepsOffsets(s, fd, bytes, stale);
    case OpenCall(node, truncate, append) =>
      if truncate {
        TruncationKeepsOffsetsIff(s, node, append);
      } else {
        OpenKeepsOffsets(s, node, append);
      }
    case CloseCall(fd) => CloseKeepsOffsets(s, fd);
  }

  lemma CloseKeepsOffsets<N>(s: State<N>, fd: int)
    requires s.Inv() && s.OffsetsInside()
    ensures Close(s, fd).0.OffsetsInside()
  {
  }

  ghost predicate AllOrderly<N>(s: State<N>, calls: seq<Call<N>>)
    requires s.Inv() && s.OffsetsInside()
    decreases |calls|
  {
    calls == [] || (
      Orderly(s, calls[0]) && (
        StepKeepsOffsets(s, calls[0]);
        AllOrderly(Step(s, calls[0]), calls[1..])))
  }

  /** In every run the standard descriptors stay out of the table, every open descriptor
      has a file, and none stands behind the end of its file. */
  ghost function Run<N>(s: State<N>, calls: seq<Call<N>>): (t: State<N>)
    requires s.Inv() && s.OffsetsInside() && AllOrderly(s, calls)
    ensures t.Inv() && t.OffsetsInside() && t.files.Keys >= s.files.Keys
    decreases |calls|
  {
    if calls == [] then s
    else
      StepKeepsOffsets(s, calls[0]);
      Run(Step(s, calls[0]), calls[1..])
  }

  lemma StepKeepsReadOnly<N>(s: State<N>, call: Call<N>, node: N)
    requires s.Inv() && s.OffsetsInside() && Orderly(s, call) && node in s.files
    requires s.files[node].mask & WRITE == 0
    ensures node in Step(s, call).files && Step(s, call).files[node].mask == s.files[node].mask
    ensures Step(s, call).files[node].Text() in {s.files[node].Text(), []}
  {
  }

  /** No run writes a file without the write permission, as `fs_create_node` makes it: its
      text stays as it is or is truncated. */
  lemma {:induction false} RunKeepsReadOnly<N>(s: State<N>, calls: seq<Call<N>>, node: N)
    requires s.Inv() && s.OffsetsInside() && AllOrderly(s, calls) && node in s.files
    requires s.files[node].mask & WRITE == 0
    ensures Run(s, calls).files[node].mask == s.files[node].mask
    ensures Run(s, calls).files[node].Text() in {s.files[node].Text(), []}
    decreases |calls|
  {
    if calls != [] {
      StepKeepsOffsets(s, calls[0]);
      StepKeepsReadOnly(s, calls[0], node);
      RunKeepsReadOnly(Step(s, calls[0]), calls[1..], node);
    }
  }

  /** So nothing can be written to a file that `syscall_open` has created: it is empty after
      any run. */
  lemma CreatedStaysEmpty<N>(s: State<N>, node: N, calls: seq<Call<N>>)
    requires s.Inv() && s.OffsetsInside() && node !in s.files && AllOrderly(s, [CreateCall(node)] + calls)
    ensures var t := Run(s, [CreateCall(node)] + calls); node in t.files && t.files[node].Text() == []
  {
    hide WithFile;
    StepKeepsOffsets(s, CreateCall(node));
    var t := WithFile(s, node);
    assert t.files[node] == FileData(READ, None, 0) by { WithFileIs(s, node); }
    assert ([CreateCall(node)] + calls)[1..] == calls;
    RunKeepsReadOnly(t, calls, node);
  }

  lemma WithFileIs<N>(s: State<N>, node: N)
    ensures var t := WithFile(s, node); t.table == s.table && t.files == s.files[node := FileData(READ, None, 0)]
  {
  }

  /** A step changes at most the descriptor it is about; what it opens was closed. */
  lemma StepKeepsOthers<N>(s: State<N>, call: Call<N>, fd: int)
    requires s.Inv() && s.OffsetsInside() && Orderly(s, call) && s.IsOpen(fd)
    requires call.CreateCall? || call.OpenCall? || call.fd != fd
    ensures Step(s, call).IsOpen(fd) && Step(s, call).table[fd] == s.table[fd]
  {
  }

  /** Opening succeeds exactly if one of the 29 entries is unused, and takes the first. */
  lemma OpensLowestIff<N>(s: State<N>, node: N, truncate: bool, append: bool)
    requires s.Inv() && node in s.files
    ensures var (t, fd) := OpenFile(s, node, truncate, append);
      && (fd == -1 <==> forall k | 3 <= k < 32 :: s.IsOpen(k))
      && (fd != -1 ==> 3 <= fd < MAX_FD && !s.IsOpen(fd) && (forall k | 3 <= k < fd :: s.IsOpen(k)))
      && (fd != -1 ==> t.IsOpen(fd) && t.table[fd] == Open(node, if append then t.files[node].length else 0))
  {
    var fd := FreeFd(s.table, 3);
    if fd.Some? {
      assert !s.IsOpen(fd.value);
    } else {
      assert forall k | 3 <= k < MAX_FD :: s.table[k].Open?;
    }
  }

  /** Closing succeeds exactly for an open descriptor, which is closed then; all others and
      the files stay. The next file that is opened takes it, or a lower one. */
  lemma CloseFrees<N>(s: State<N>, fd: int, node: N, truncate: bool, append: bool)
    requires s.Inv() && node in s.files
    ensures var (t, r) := Close(s, fd);
      && r == (if s.IsOpen(fd) then 0 else -1) && !t.IsOpen(fd) && t.files == s.files && |t.table| == |s.table|
      && (forall k | 0 <= k < |s.table| && k != fd :: t.table[k] == s.table[k])
      && (s.IsOpen(fd) ==> 3 <= OpenFile(t, node, truncate, append).1 <= fd)
  {
    var t := Close(s, fd).0;
    OpensLowestIff(t, node, truncate, append);
    hide OpenFile;
    if s.IsOpen(fd) {
      assert !t.IsOpen(fd) && 3 <= fd < MAX_FD;
    }
  }

  /** Closing what has just been opened without truncation undoes the opening. */
  lemma CloseUndoesOpen<N>(s: State<N>, node: N, append: bool)
    requires s.Inv() && node in s.files
    ensures var (t, fd) := OpenFile(s, node, false, append);
      if fd == -1 then t == s else Close(t, fd) == (s, 0)
  {
    var fd := FreeFd(s.table, 3);
    if fd.Some? {
      var t := OpenFile(s, node, false, append).0;
      assert t.table[fd.value := Closed] == s.table;
    }
  }

  /** A read fails exactly if the descriptor is not open or the file may not be read; what
      it reads are so many bytes from the offset on, by which the offset grows, modulo
      2^32, and nothing else changes. */
  lemma ReadFetches<N>(s: State<N>, fd: int, count: nat, beyond: nat -> byte)
    requires s.Inv()
    ensures var (t, r) := Read(s, fd, count, beyond);
      && t.files == s.files && |t.table| == |s.table|
      && (forall k | 0 <= k < |s.table| && k != fd :: t.table[k] == s.table[k])
      && (r.None? <==> !s.IsOpen(fd) || s.files[s.table[fd].node].mask & 1 == 0)
      && (r.None? ==> t == s)
      && (r.Some? ==>
          var d, bytes := s.table[fd], r.value; var f := s.files[d.node]; var block := f.contents;
          && t.table[fd] == Open(d.node, (d.offset + |bytes|) % 0x1_0000_0000)
          && |bytes| == (if block.None? then 0 else Min(count, (f.length - d.offset) % 0x1_0000_0000))
          && forall k | 0 <= k < |bytes| ::
               bytes[k] == var at := d.offset + k; if at < |block.value| then block.value[at] else beyond(at))
  {
  }

  /** A write fails exactly if the descriptor is neither standard output nor open for a file
      that may be written. Else it lays the bytes over the text at the offset, under the
      condition on growing, and moves the offset behind them; nothing else changes. */
  lemma WriteSplicesAtOffset<N>(s: State<N>, fd: int, bytes: seq<byte>, stale: nat -> byte)
    requires s.Inv() && (s.IsOpen(fd) ==> Fits(s, fd, |bytes|))
    ensures var (t, n) := Write(s, fd, bytes, stale);
      && |t.table| == |s.table| && t.files.Keys == s.files.Keys
      && (forall k | 0 <= k < |s.table| && k != fd :: t.table[k] == s.table[k])
      && (n == -1 <==> fd != 1 && fd != 2 && !(s.IsOpen(fd) && s.files[s.table[fd].node].mask & 2 != 0))
      && (n != -1 ==> n == |bytes|)
      && (n == -1 || fd == 1 || fd == 2 ==> t == s)
      && (n != -1 && s.IsOpen(fd) ==>
          var d := s.table[fd]; var f := s.files[d.node];
          && t.table[fd] == Open(d.node, d.offset + |bytes|)
          && (forall other | other in s.files && other != d.node :: t.files[other] == s.files[other])
          && t.files[d.node].mask == f.mask
          && (t.files[d.node].Text() == Overwrite(f.Text(), d.offset, bytes) <==>
              KeepsOld(f, d.offset, |bytes|, stale)))
  {
    if s.IsOpen(fd) && s.files[s.table[fd].node].mask & WRITE != 0 {
      WriteSplicesIff(s.files[s.table[fd].node], s.table[fd].offset, bytes, stale);
    }
    hide Written, Overwrite, KeepsOld;
  }

  // Streams

  ghost predicate Readable<N>(s: State<N>, fd: int)
    requires s.Inv()
  {
    s.IsOpen(fd) && s.files[s.table[fd].node].mask & READ != 0
  }

  function Min(a: nat, b: nat): nat {
    if a < b then a else b
  }

  lemma SliceOfPrefix<T>(s: seq<T>, n: nat, a: nat, b: nat)
    requires a <= b <= n <= |s|
    ensures s[..n][a..b] == s[a..b]
  {
  }

  lemma ReadIs<N>(s: State<N>, fd: int, count: nat, beyond: nat -> byte)
    requires s.Inv() && s.OffsetsInside() && Readable(s, fd)
    ensures InFile(s, fd, count)
    ensures var d := s.table[fd]; var f := s.files[d.node]; var (t, r) := Read(s, fd, count, beyond);
      && Readable(t, fd) && t.OffsetsInside() && t.files == s.files
      && r == Some(f.Text()[d.offset..Min(d.offset + count, f.length)])
      && t.table[fd] == Open(d.node, Min(d.offset + count, f.length))
  {
    ReadKeepsOffsets(s, fd, count, beyond);
    var d := s.table[fd];
    var f := s.files[d.node];
    ReadsInsideIff(f.length, d.offset, count);
    var end := d.offset + ReadSize(f.length, d.offset, count);
    SliceOfPrefix(f.Block(), f.length, d.offset, if f.contents.Some? then end else d.offset);
  }

  /** One read after the other, and all bytes read. */
  ghost function ReadAll<N>(s: State<N>, fd: int, counts: seq<nat>, beyond: nat -> byte): (r: (State<N>, seq<byte>))
    requires s.Inv() && s.OffsetsInside() && Readable(s, fd)
    decreases |counts|
  {
    if counts == [] then (s, [])
    else
      ReadIs(s, fd, counts[0], beyond);
      var (t, bytes) := Read(s, fd, counts[0], beyond);
      var rest := ReadAll(t, fd, counts[1..], beyond);
      (rest.0, bytes.value + rest.1)
  }

  function Sum(counts: seq<nat>): nat {
    if counts == [] then 0 else counts[0] + Sum(counts[1..])
  }

  lemma OffsetIs<N>(s: State<N>, fd: int)
    requires s.Inv() && s.OffsetsInside() && Readable(s, fd)
    ensures s.IsOpen(fd) && s.table[fd].node in s.files && s.files[s.table[fd].node].Sound()
    ensures s.table[fd].offset <= s.files[s.table[fd].node].length == |s.files[s.table[fd].node].Text()|
  {
  }

  /** Successive reads return consecutive slices: together, what one read of the sum of
      the counts returns. */
  lemma {:induction false} ReadsAreConsecutive<N>(s: State<N>, fd: int, counts: seq<nat>, beyond: nat -> byte)
    requires s.Inv() && s.OffsetsInside() && Readable(s, fd)
    ensures var d := s.table[fd]; var f := s.files[d.node];
      && ReadAll(s, fd, counts, beyond).1 == f.Text()[d.offset..Min(d.offset + Sum(counts), f.length)]
      && ReadAll(s, fd, counts, beyond).0.Inv() && ReadAll(s, fd, counts, beyond).0.files == s.files
      && ReadAll(s, fd, counts, beyond).0.table[fd] == Open(d.node, Min(d.offset + Sum(counts), f.length))
    decreases |counts|
  {
    hide Read, InFile, Readable, State.OffsetsInside, State.Inv, FileData.Sound, FileData.Text, ReadAll, Min, Sum;
    OffsetIs(s, fd);
    var d := s.table[fd];
    var text := s.files[d.node].Text();
    if counts == [] {
      SlicesJoin(text, d.offset, 0, 0);
      ReadNothing(s, fd, beyond);
    } else {
      ReadAllStep(s, fd, counts, beyond);
      ReadsAreConsecutive(Read(s, fd, counts[0], beyond).0, fd, counts[1..], beyond);
      SlicesJoin(text, d.offset, counts[0], Sum(counts[1..]));
    }
  }

  lemma ReadNothing<N>(s: State<N>, fd: int, beyond: nat -> byte)
    requires s.Inv() && s.OffsetsInside() && Readable(s, fd)
    ensures ReadAll(s, fd, [], beyond) == (s, []) && Sum([]) == 0
    ensures var d := s.table[fd]; d == Open(d.node, Min(d.offset + 0, s.files[d.node].length))
  {
  }

  lemma ReadAllStep<N>(s: State<N>, fd: int, counts: seq<nat>, beyond: nat -> byte)
    requires s.Inv() && s.OffsetsInside() && Readable(s, fd) && counts != []
    ensures InFile(s, fd, counts[0]) && Sum(counts) == counts[0] + Sum(counts[1..])
    ensures var d := s.table[fd]; var f := s.files[d.node]; var t := Read(s, fd, counts[0], beyond).0;
      var end := Min(d.offset + counts[0], f.length);
      && Readable(t, fd) && t.OffsetsInside() && t.files == s.files && t.table[fd] == Open(d.node, end)
      && ReadAll(s, fd, counts, beyond).0 == ReadAll(t, fd, counts[1..], beyond).0
      && ReadAll(s, fd, counts, beyond).1 == f.Text()[d.offset..end] + ReadAll(t, fd, counts[1..], beyond).1
  {
    ReadIs(s, fd, counts[0], beyond);
    hide Read, InFile, Readable, State.OffsetsInside, State.Inv, FileData.Sound, FileData.Text, Min;
  }

  lemma SlicesJoin(text: seq<byte>, offset: nat, a: nat, b: nat)
    requires offset <= |text|
    ensures var end := Min(offset + a, |text|);
      && offset <= end <= Min(end + b, |text|) == Min(offset + (a + b), |text|) <= |text|
      && text[offset..end] + text[end..Min(end + b, |text|)] == text[offset..Min(offset + (a + b), |text|)]
  {
  }

  /** A descriptor at the end of a file with the write permission. */
  ghost predicate Appendable<N>(s: State<N>, fd: int, room: nat)
    requires s.Inv()
  {
    && s.IsOpen(fd) && fd >= 3 && s.files[s.table[fd].node].mask & WRITE != 0
    && s.table[fd].offset == s.files[s.table[fd].node].length && s.table[fd].offset + room < U32
  }

  function Concat(chunks: seq<seq<byte>>): seq<byte> {
    if chunks == [] then [] else chunks[0] + Concat(chunks[1..])
  }

  /** One write after the other. */
  ghost function WriteAll<N>(s: State<N>, fd: int, chunks: seq<seq<byte>>, stale: seq<nat -> byte>): State<N>
    requires s.Inv() && |stale| == |chunks| && Appendable(s, fd, |Concat(chunks)|)
    decreases |chunks|
  {
    if chunks == [] then s else WriteAll(Write(s, fd, chunks[0], stale[0]).0, fd, chunks[1..], stale[1..])
  }

  /** Whether a write behind a text finds that text in the new block, as far as it has not
      been copied there. */
  ghost predicate Agrees(text: seq<byte>, bytes: seq<byte>, stale: nat -> byte) {
    bytes == [] || forall k | 256 <= k < |text| :: stale(k) == text[k]
  }

  lemma AppendedTextIff(f: FileData, bytes: seq<byte>, stale: nat -> byte)
    requires f.Sound() && f.length + |bytes| < U32
    ensures Written(f, f.length, bytes, stale).Text() == f.Text() + bytes <==> Agrees(f.Text(), bytes, stale)
  {
    WriteSplicesIff(f, f.length, bytes, stale);
    hide Written;
    assert Overwrite(f.Text(), f.length, bytes) == f.Text() + bytes;
  }

  lemma AppendIs<N>(s: State<N>, fd: int, bytes: seq<byte>, stale: nat -> byte, room: nat)
    requires s.Inv() && s.OffsetsInside() && Appendable(s, fd, |bytes| + room)
    ensures var d := s.table[fd]; var (t, n) := Write(s, fd, bytes, stale);
      && n == |bytes| && Appendable(t, fd, room) && t.OffsetsInside()
      && t.table == s.table[fd := Open(d.node, d.offset + |bytes|)] && t.files.Keys == s.files.Keys
      && t.files[d.node].mask == s.files[d.node].mask
      && var (text, text') := (s.files[d.node].Text(), t.files[d.node].Text());
         text' == text + bytes <==> Agrees(text, bytes, stale)
  {
    hide Written, State.OffsetsInside, Agrees;
    WriteKeepsOffsets(s, fd, bytes, stale);
    AppendedTextIff(s.files[s.table[fd].node], bytes, stale);
  }

  /** Whether every one of these writes appends its bytes to the text. */
  ghost predicate AllAppend<N>(s: State<N>, fd: int, chunks: seq<seq<byte>>, stale: seq<nat -> byte>)
    requires s.Inv() && s.OffsetsInside() && |stale| == |chunks| && Appendable(s, fd, |Concat(chunks)|)
    decreases |chunks|
  {
    chunks == [] || (
      AppendIs(s, fd, chunks[0], stale[0], |Concat(chunks[1..])|);
      var t, node := Write(s, fd, chunks[0], stale[0]).0, s.table[fd].node;
      && t.files[node].Text() == s.files[node].Text() + chunks[0]
      && AllAppend(t, fd, chunks[1..], stale[1..]))
  }

  /** Whether every write finds in its new block the text that was not copied. */
  ghost predicate AllAgree(text: seq<byte>, chunks: seq<seq<byte>>, stale: seq<nat -> byte>)
    requires |stale| == |chunks|
    decreases |chunks|
  {
    chunks == [] || (Agrees(text, chunks[0], stale[0]) && AllAgree(text + chunks[0], chunks[1..], stale[1..]))
  }

  /** Writes from the end of a file append, each of them, exactly if every new block holds
      the text that was not copied; then the file has gained all their bytes. */
  lemma {:induction false} WritesAppendIff<N>(s: State<N>, fd: int, chunks: seq<seq<byte>>, stale: seq<nat -> byte>)
    requires s.Inv() && s.OffsetsInside() && |stale| == |chunks| && Appendable(s, fd, |Concat(chunks)|)
    ensures var d := s.table[fd]; var t := WriteAll(s, fd, chunks, stale); var text := s.files[d.node].Text();
      && t.Inv() && t.OffsetsInside() && t.table == s.table[fd := Open(d.node, d.offset + |Concat(chunks)|)]
      && t.files.Keys == s.files.Keys && t.files[d.node].mask == s.files[d.node].mask
      && (AllAppend(s, fd, chunks, stale) <==> AllAgree(text, chunks, stale))
      && (AllAgree(text, chunks, stale) ==> t.files[d.node].Text() == text + Concat(chunks))
    decreases |chunks|
  {
    hide State.OffsetsInside, Write, Agrees, FileData.Text, FileData.Sound;
    var text := s.files[s.table[fd].node].Text();
    if chunks == [] {
      assert text + [] == text;
    } else {
      AppendIs(s, fd, chunks[0], stale[0], |Concat(chunks[1..])|);
      WritesAppendIff(Write(s, fd, chunks[0], stale[0]).0, fd, chunks[1..], stale[1..]);
      assert text + chunks[0] + Concat(chunks[1..]) == text + Concat(chunks);
    }
  }

  /** Whether every write with bytes begins within the first 256. */
  predicate StartsWithinCopied(start: nat, chunks: seq<seq<byte>>)
    decreases |chunks|
  {
    chunks == [] || ((chunks[0] == [] || start <= 256) && StartsWithinCopied(start + |chunks[0]|, chunks[1..]))
  }

  lemma {:induction false} StartingWithinAgrees(text: seq<byte>, chunks: seq<seq<byte>>, stale: seq<nat -> byte>)
    requires |stale| == |chunks| && StartsWithinCopied(|text|, chunks)
    ensures AllAgree(text, chunks, stale)
    decreases |chunks|
  {
    if chunks != [] {
      StartingWithinAgrees(text + chunks[0], chunks[1..], stale[1..]);
    }
  }

  lemma {:induction false} StartingBeyondDiffers(text: seq<byte>, chunks: seq<seq<byte>>)
    returns (stale: seq<nat -> byte>)
    requires !StartsWithinCopied(|text|, chunks)
    ensures |stale| == |chunks| && !AllAgree(text, chunks, stale)
    decreases |chunks|
  {
    if chunks[0] != [] && |text| > COPIED {
      var other: nat -> byte := k => text[COPIED] + 1;
      assert other(COPIED) != text[COPIED];
      stale := seq(|chunks|, _ => other);
      assert !Agrees(text, chunks[0], stale[0]);
    } else {
      var rest := StartingBeyondDiffers(text + chunks[0], chunks[1..]);
      stale := [k => 0] + rest;
      assert stale[1..] == rest;
    }
  }

  /** Whatever new blocks hold, writes append exactly if all that have bytes begin within
      the first 256. */
  lemma AlwaysAgreeIff(text: seq<byte>, chunks: seq<seq<byte>>)
    ensures (forall stale: seq<nat -> byte> | |stale| == |chunks| :: AllAgree(text, chunks, stale))
       <==> StartsWithinCopied(|text|, chunks)
  {
    if StartsWithinCopied(|text|, chunks) {
      forall stale: seq<nat -> byte> | |stale| == |chunks|
        ensures AllAgree(text, chunks, stale)
      {
        StartingWithinAgrees(text, chunks, stale);
      }
    } else {
      var stale := StartingBeyondDiffers(text, chunks);
    }
  }

  /** Opening a file and reading it to the end returns its text. */
  lemma OpenThenReadAll<N>(s: State<N>, node: N, counts: seq<nat>, beyond: nat -> byte)
    requires s.Inv() && s.OffsetsInside() && node in s.files && s.files[node].mask & READ != 0
    requires Sum(counts) >= s.files[node].length
    ensures var (t, fd) := OpenFile(s, node, false, false);
      && (fd == -1 <==> forall k | 3 <= k < 32 :: s.IsOpen(k))
      && (fd != -1 ==> t.OffsetsInside() && Readable(t, fd) && ReadAll(t, fd, counts, beyond).1 == s.files[node].Text())
  {
    OpensLowestIff(s, node, false, false);
    OpenKeepsOffsets(s, node, false);
    var (t, fd) := OpenFile(s, node, false, false);
    assert t.files == s.files;
    hide OpenFile, State.OffsetsInside;
    if fd != -1 {
      ReadsAreConsecutive(t, fd, counts, beyond);
    }
  }

  /** What has been written to an empty file through one descriptor, by writes that append,
      is read back through another that is opened then, by any reads that ask for as much. */
  lemma WriteThenReadBack<N>(s: State<N>, fd: int, chunks: seq<seq<byte>>, stale: seq<nat -> byte>,
                             counts: seq<nat>, beyond: nat -> byte)
    requires s.Inv() && s.OffsetsInside() && |stale| == |chunks| && Appendable(s, fd, |Concat(chunks)|)
    requires s.table[fd].offset == 0 && s.files[s.table[fd].node].mask & READ != 0
    requires AllAgree([], chunks, stale) && Sum(counts) >= |Concat(chunks)|
    ensures var node := s.table[fd].node; var t := WriteAll(s, fd, chunks, stale);
      t.Inv() && node in t.files && var (u, other) := OpenFile(t, node, false, false);
      && (other == -1 <==> forall k | 3 <= k < 32 :: s.IsOpen(k))
      && (other != -1 ==>
          u.OffsetsInside() && Readable(u, other) && ReadAll(u, other, counts, beyond).1 == Concat(chunks))
  {
    var node, t := s.table[fd].node, WriteAll(s, fd, chunks, stale);
    EmptyText(s, fd, |Concat(chunks)|);
    hide OpenFile, State.OffsetsInside, ReadAll, WriteAll, Concat, Sum, AllAppend, AllAgree, Appendable, Readable;
    WritesAppendIff(s, fd, chunks, stale);
    assert [] + Concat(chunks) == Concat(chunks);
    OpenThenReadAll(t, node, counts, beyond);
    forall k | 3 <= k < MAX_FD
      ensures t.IsOpen(k) == s.IsOpen(k)
    {
    }
  }

  lemma EmptyText<N>(s: State<N>, fd: int, room: nat)
    requires s.Inv() && Appendable(s, fd, room) && s.table[fd].offset == 0
    ensures s.files[s.table[fd].node].Text() == []
  {
  }
}
