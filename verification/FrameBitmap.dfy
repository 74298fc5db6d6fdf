/** The physical frame bitmap of memory.c as a set of frames. */
module FrameBitmap {
  import opened Prelude

  const PAGE_SIZE := 4096
  const MAX_PAGES := 0x10_0000

  /** The number of a 4 KB page. */
  type PageNumber = p: nat | p < MAX_PAGES

  // Naming the operations on words keeps the proofs about bits equational.

  function And(w: bv32, m: bv32): bv32 {
    w & m
  }

  function Or(w: bv32, m: bv32): bv32 {
    w | m
  }

  function AndNot(w: bv32, m: bv32): bv32 {
    w & !m
  }

  /** 1 << off. */
  function Mask(off: nat): bv32
    requires off < 32
  {
    (1 as bv32) << off
  }

  predicate Bit(w: bv32, off: nat)
    requires off < 32
  {
    And(w, Mask(off)) != 0
  }

  /** Whether the bit of a frame is set. */
  predicate Taken(words: seq<bv32>, frame: nat) {
    frame / 32 < |words| && Bit(words[frame / 32], frame % 32)
  }

  lemma MaskNonZero(i: nat)
    requires i < 32
    ensures Mask(i) != 0
  {
  }

  lemma MasksDisjoint(i: nat, j: nat)
    requires i < 32 && j < 32 && i != j
    ensures And(Mask(i), Mask(j)) == 0
  {
  }

  lemma DisjointOr(w: bv32, m: bv32, n: bv32)
    requires m & n == 0
    ensures (w | m) & n == w & n
  {
  }

  lemma DisjointAndNot(w: bv32, m: bv32, n: bv32)
    requires m & n == 0
    ensures (w & !m) & n == w & n
  {
  }

  lemma DisjointMasks(w: bv32, m: bv32, n: bv32)
    requires And(m, n) == 0
    ensures And(Or(w, m), n) == And(w, n)
    ensures And(AndNot(w, m), n) == And(w, n)
  {
    DisjointOr(w, m, n);
    DisjointAndNot(w, m, n);
  }

  lemma SameMask(w: bv32, m: bv32)
    ensures And(Or(w, m), m) == m
    ensures And(AndNot(w, m), m) == 0
  {
  }

  lemma SetBit(w: bv32, i: nat, j: nat)
    requires i < 32 && j < 32
    ensures Bit(Or(w, Mask(i)), j) <==> i == j || Bit(w, j)
  {
    hide Mask, And, Or;
    if i == j {
      MaskNonZero(i);
      SameMask(w, Mask(i));
    } else {
      MasksDisjoint(i, j);
      DisjointMasks(w, Mask(i), Mask(j));
    }
  }

  lemma ClearBit(w: bv32, i: nat, j: nat)
    requires i < 32 && j < 32
    ensures Bit(AndNot(w, Mask(i)), j) <==> i != j && Bit(w, j)
  {
    hide Mask, And, AndNot;
    if i == j {
      SameMask(w, Mask(i));
    } else {
      MasksDisjoint(i, j);
      DisjointMasks(w, Mask(i), Mask(j));
    }
  }

  /** Setting or clearing the bit of one frame leaves all others alone. */
  lemma WriteBit(words: seq<bv32>, frame: nat, f: nat)
    requires frame / 32 < |words|
    ensures var (idx, off) := (frame / 32, frame % 32);
            && (Taken(words[idx := Or(words[idx], Mask(off))], f) <==> f == frame || Taken(words, f))
            && (Taken(words[idx := AndNot(words[idx], Mask(off))], f) <==> f != frame && Taken(words, f))
  {
    hide Bit, Mask, Or, AndNot;
    if f / 32 == frame / 32 {
      SetBit(words[frame / 32], frame % 32, f % 32);
      ClearBit(words[frame / 32], frame % 32, f % 32);
    }
  }

  lemma AllBitsAreOnes(w: bv32)
    requires forall j: nat | j < 32 :: Bit(w, j)
    ensures w == 0xFFFF_FFFF
  {
    assert Bit(w, 0) && Bit(w, 1) && Bit(w, 2) && Bit(w, 3) && Bit(w, 4) && Bit(w, 5) && Bit(w, 6) && Bit(w, 7);
    assert Bit(w, 8) && Bit(w, 9) && Bit(w, 10) && Bit(w, 11) && Bit(w, 12) && Bit(w, 13) && Bit(w, 14) && Bit(w, 15);
    assert Bit(w, 16) && Bit(w, 17) && Bit(w, 18) && Bit(w, 19) && Bit(w, 20) && Bit(w, 21) && Bit(w, 22) && Bit(w, 23);
    assert Bit(w, 24) && Bit(w, 25) && Bit(w, 26) && Bit(w, 27) && Bit(w, 28) && Bit(w, 29) && Bit(w, 30) && Bit(w, 31);
  }

  lemma AllBits(w: bv32)
    ensures w == 0xFFFF_FFFF <==> forall j: nat | j < 32 :: Bit(w, j)
  {
    hide Bit;
    if forall j: nat | j < 32 :: Bit(w, j) {
      AllBitsAreOnes(w);
    }
    if w == 0xFFFF_FFFF {
      forall j: nat | j < 32
        ensures Bit(w, j)
      {
        OnesBit(j);
      }
    }
  }

  lemma OnesBit(j: nat)
    requires j < 32
    ensures Bit(0xFFFF_FFFF, j)
  {
  }

  lemma ZeroBit(j: nat)
    requires j < 32
    ensures !Bit(0, j)
  {
  }

  /** The least free frame of the first n words, if there is one. */
  ghost predicate IsFirstFree(words: seq<bv32>, n: nat, frame: nat) {
    && n <= |words| && frame < 32 * n && !Taken(words, frame)
    && forall f: nat | f < frame :: Taken(words, f)
  }

  ghost predicate Full(words: seq<bv32>, n: nat) {
    forall f: nat | f < 32 * n :: Taken(words, f)
  }

  /** `frames` and `nframes`. */
  class Bitmap {
    const frames: array<bv32>
    var nframes: nat

    ghost predicate Valid()
      reads this
    {
      frames.Length == MAX_PAGES / 32 && nframes <= MAX_PAGES
    }

    constructor ()
      ensures fresh(frames) && frames.Length == MAX_PAGES / 32 && nframes == 0
    {
      frames := new bv32[MAX_PAGES / 32];
      nframes := 0;
    }

    /** The frames of the 128 MB that `init_memory` reports, of which it takes the first
        megabyte: 256 frames. */
    method Initialize()
      requires frames.Length == MAX_PAGES / 32
      modifies this, frames
      ensures Valid() && nframes == 32768
      ensures forall f: nat | f < nframes :: Taken(frames[..], f) <==> f < 256
    {
      hide Bit;
      nframes := 128 * 1024 * 1024 / PAGE_SIZE;
      for i := 0 to nframes / 32
        invariant nframes == 32768 && forall k | 0 <= k < i :: frames[k] == 0
      {
        frames[i] := 0;
      }
      forall f: nat | f < nframes
        ensures !Taken(frames[..], f)
      {
        ZeroBit(f % 32);
      }
      hide Taken;
      for i := 0 to 256
        invariant nframes == 32768
        invariant forall f: nat | f < nframes :: Taken(frames[..], f) <==> f < i
      {
        SetFrame(i * PAGE_SIZE);
      }
    }

    /** `set_frame`. */
    method SetFrame(frameAddr: Address)
      requires Valid()
      modifies frames
      ensures forall f: nat :: Taken(frames[..], f) <==> f == frameAddr / PAGE_SIZE || Taken(old(frames[..]), f)
    {
      hide Bit, Taken, Mask, Or, AndNot;
      var frame := frameAddr / PAGE_SIZE;
      var idx := frame / 32;
      var off := frame % 32;
      frames[idx] := Or(frames[idx], Mask(off));
      assert frames[..] == old(frames[..])[idx := Or(old(frames[idx]), Mask(off))];
      forall f: nat
        ensures Taken(frames[..], f) <==> f == frame || Taken(old(frames[..]), f)
      {
        WriteBit(old(frames[..]), frame, f);
      }
    }

    /** `clear_frame`. */
    method ClearFrame(frameAddr: Address)
      requires Valid()
      modifies frames
      ensures forall f: nat :: Taken(frames[..], f) <==> f != frameAddr / PAGE_SIZE && Taken(old(frames[..]), f)
    {
      hide Bit, Taken, Mask, Or, AndNot;
      var frame := frameAddr / PAGE_SIZE;
      var idx := frame / 32;
      var off := frame % 32;
      frames[idx] := AndNot(frames[idx], Mask(off));
      assert frames[..] == old(frames[..])[idx := AndNot(old(frames[idx]), Mask(off))];
      forall f: nat
        ensures Taken(frames[..], f) <==> f != frame && Taken(old(frames[..]), f)
      {
        WriteBit(old(frames[..]), frame, f);
      }
    }

    /** `test_frame`. */
    method TestFrame(frameAddr: Address) returns (bit: bv32)
      requires Valid()
      ensures bit != 0 <==> Taken(frames[..], frameAddr / PAGE_SIZE)
      ensures bit == frames[frameAddr / 4096 / 32] & (1 << (frameAddr / 4096 % 32))
    {
      var frame := frameAddr / PAGE_SIZE;
      var idx := frame / 32;
      var off := frame % 32;
      bit := And(frames[idx], Mask(off));
    }

    /** `first_free_frame`, which answers 0 when every frame is taken. */
    method FirstFreeFrame() returns (frame: nat)
      requires Valid()
      ensures if Full(frames[..], nframes / 32) then frame == 0 else IsFirstFree(frames[..], nframes / 32, frame)
    {
      hide Bit;
      var i := 0;
      while i < nframes / 32
        invariant i <= nframes / 32
        invariant forall f: nat | f < 32 * i :: Taken(frames[..], f)
      {
        if frames[i] == 0xFFFF_FFFF {
          OnesAreTaken(frames[..], i);
        } else {
          var j := 0;
          while j < 32
            invariant j <= 32
            invariant forall f: nat | f < 32 * i + j :: Taken(frames[..], f)
          {
            assert (32 * i + j) / 32 == i && (32 * i + j) % 32 == j;
            if !Bit(frames[i], j) {
              assert !Taken(frames[..], i * 32 + j);
              return i * 32 + j;
            }
            j := j + 1;
          }
        }
        i := i + 1;
      }
      return 0;
    }
  }

  lemma OnesAreTaken(words: seq<bv32>, i: nat)
    requires i < |words| && words[i] == 0xFFFF_FFFF
    ensures forall f: nat | 32 * i <= f < 32 * (i + 1) :: Taken(words, f)
  {
    hide Bit;
    AllBits(words[i]);
    forall f: nat | 32 * i <= f < 32 * (i + 1)
      ensures Taken(words, f)
    {
      assert f / 32 == i;
    }
  }
}
