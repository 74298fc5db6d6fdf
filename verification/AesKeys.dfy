/** `expand_key` and `aes_init` against KeyExpansion (FIPS 197, section 5.2). */
module AesKeys {
  import opened AesField
  import opened AesColumns
  import opened AesTables
  import opened AesCipher
  import opened AesBlocks

  /** `aes_key_size_t`. */
  datatype KeySize = Aes128 | Aes192 | Aes256
  {
    /** The length Nk of the key in words. */
    function Words(): nat {
      match this case Aes128 => 4 case Aes192 => 6 case Aes256 => 8
    }

    function Bytes(): nat {
      4 * Words()
    }

    /** The number Nr of rounds. */
    function Rounds(): nat {
      match this case Aes128 => 10 case Aes192 => 12 case Aes256 => 14
    }

    /** Nr is six more than Nk (FIPS 197, figure 4). */
    lemma RoundsOfWords()
      ensures Rounds() == Words() + 6 && Words() in {4, 6, 8}
    {
    }

    /** i / Nk. */
    function Group(i: nat): nat {
      match this case Aes128 => i / 4 case Aes192 => i / 6 case Aes256 => i / 8
    }

    /** i mod Nk. */
    function Rank(i: nat): nat {
      match this case Aes128 => i % 4 case Aes192 => i % 6 case Aes256 => i % 8
    }

    lemma RankAndGroup(j: nat)
      ensures j == Words() * Group(j) + Rank(j) && Rank(j) < Words()
    {
    }

    lemma DivideByBytes(i: nat)
      requires i % 4 == 0
      ensures i % Bytes() == 4 * Rank(i / 4)
      ensures i / Bytes() == Group(i / 4)
    {
      hide Rank, Group;
      RankAndGroup(i / 4);
      var q, r := Group(i / 4), Rank(i / 4);
      match this
      case Aes128 => Quotient16(i, q, 4 * r);
      case Aes192 => Quotient24(i, q, 4 * r);
      case Aes256 => Quotient32(i, q, 4 * r);
    }
  }

  lemma Quotient16(i: nat, q: nat, r: nat)
    requires i == 16 * q + r && r < 16
    ensures i / 16 == q && i % 16 == r
  {
  }

  lemma Quotient24(i: nat, q: nat, r: nat)
    requires i == 24 * q + r && r < 24
    ensures i / 24 == q && i % 24 == r
  {
  }

  lemma Quotient32(i: nat, q: nat, r: nat)
    requires i == 32 * q + r && r < 32
    ensures i / 32 == q && i % 32 == r
  {
  }

  /** Word i of a sequence of bytes. */
  function WordAt(b: seq<bv8>, i: nat): Column
    requires 4 * i + 4 <= |b|
  {
    Column(b[4 * i], b[4 * i + 1], b[4 * i + 2], b[4 * i + 3])
  }

  function RotWord(w: Column): Column {
    Column(w.b, w.c, w.d, w.a)
  }

  /** What word i adds to word i - Nk, given word i - 1. */
  function Twist(size: KeySize, i: nat, previous: Column): Column
    requires size.Words() <= i
  {
    if size.Rank(i) == 0 then
      Plus(SubColumn(RotWord(previous)), Column(PowerOfX(size.Group(i) - 1), 0, 0, 0))
    else if size.Words() > 6 && size.Rank(i) == 4 then SubColumn(previous)
    else previous
  }

  /** Word i of the schedule of a key. */
  function ScheduleWord(size: KeySize, key: seq<bv8>, i: nat): Column
    requires |key| == size.Bytes()
  {
    if i < size.Words() then WordAt(key, i)
    else Plus(ScheduleWord(size, key, i - size.Words()), Twist(size, i, ScheduleWord(size, key, i - 1)))
  }

  /** The first n words of w are those of the schedule. */
  ghost predicate IsSchedule(size: KeySize, key: seq<bv8>, w: seq<bv8>, n: nat)
    requires |key| == size.Bytes()
  {
    4 * n <= |w| && forall i: nat | i < n :: WordAt(w, i) == ScheduleWord(size, key, i)
  }

  method SubWordInPlace(temp: array<bv8>)
    requires temp.Length == 4
    modifies temp
    ensures WordAt(temp[..], 0) == SubColumn(WordAt(old(temp[..]), 0))
  {
    for j := 0 to 4
      invariant forall l | 0 <= l < j :: temp[l] == Sbox(old(temp[l]))
      invariant forall l | j <= l < 4 :: temp[l] == old(temp[l])
    {
      temp[j] := Sbox(temp[j]);
    }
  }

  lemma RconWord(size: KeySize, i: nat, w: Column)
    requires size.Words() <= i < 4 * size.Rounds() + 4
    ensures 0 <= size.Group(i) - 1 < |RCON|
    ensures Plus(w, Column(PowerOfX(size.Group(i) - 1), 0, 0, 0))
         == Column(Add(w.a, RCON[size.Group(i) - 1]), w.b, w.c, w.d)
  {
    hide Add, PowerOfX;
    RconArePowers(size.Group(i) - 1);
    AddZero(w.b);
    AddZero(w.c);
    AddZero(w.d);
  }

  method RotWordInPlace(temp: array<bv8>)
    requires temp.Length == 4
    modifies temp
    ensures WordAt(temp[..], 0) == RotWord(WordAt(old(temp[..]), 0))
  {
    var t := temp[0];
    temp[0] := temp[1];
    temp[1] := temp[2];
    temp[2] := temp[3];
    temp[3] := t;
  }

  method CopyWord(b: array<bv8>, at: nat) returns (temp: array<bv8>)
    requires at % 4 == 0 && at + 4 <= b.Length
    ensures fresh(temp) && temp.Length == 4 && WordAt(temp[..], 0) == WordAt(b[..], at / 4)
  {
    temp := new bv8[4];
    for j := 0 to 4
      invariant forall l | 0 <= l < j :: temp[l] == b[at + l]
    {
      temp[j] := b[at + j];
    }
  }

  lemma TwistAt(size: KeySize, i: nat, previous: Column)
    requires i % 4 == 0 && size.Bytes() <= i
    ensures i / size.Bytes() == size.Group(i / 4) > 0
    ensures Twist(size, i / 4, previous) ==
      if i % size.Bytes() == 0 then Plus(SubColumn(RotWord(previous)), Column(PowerOfX(size.Group(i / 4) - 1), 0, 0, 0))
      else if size.Bytes() > 24 && i % size.Bytes() == 16 then SubColumn(previous)
      else previous
  {
    hide SubColumn, RotWord, Add, PowerOfX, Plus;
    size.DivideByBytes(i);
  }

  /** The branch of `expand_key` for the first word of a group. */
  method TwistFirst(size: KeySize, i: nat, temp: array<bv8>)
    requires i % 4 == 0 && size.Bytes() <= i < 16 * (size.Rounds() + 1) && temp.Length == 4
    requires i / size.Bytes() == size.Group(i / 4)
    modifies temp
    ensures WordAt(temp[..], 0) ==
      Plus(SubColumn(RotWord(WordAt(old(temp[..]), 0))), Column(PowerOfX(size.Group(i / 4) - 1), 0, 0, 0))
  {
    hide SubColumn, RotWord, Add, PowerOfX, Twist, KeySize.Rank, Plus;
    var keySize := size.Bytes();
    RotWordInPlace(temp);
    SubWordInPlace(temp);
    RconWord(size, i / 4, WordAt(temp[..], 0));
    temp[0] := Add(temp[0], RCON[i / keySize - 1]);
  }

  /** The part of the loop body of `expand_key` that makes `temp`. */
  method ScheduleTemp(size: KeySize, expandedKey: array<bv8>, i: nat) returns (temp: array<bv8>)
    requires i % 4 == 0 && size.Bytes() <= i < 16 * (size.Rounds() + 1)
    requires i <= expandedKey.Length
    ensures fresh(temp) && temp.Length == 4
    ensures WordAt(temp[..], 0) == Twist(size, i / 4, WordAt(expandedKey[..], i / 4 - 1))
  {
    hide SubColumn, RotWord, Add, PowerOfX, Twist, KeySize.Rank, KeySize.Group, Plus, WordAt;
    var keySize := size.Bytes();
    temp := CopyWord(expandedKey, i - 4);
    size.DivideByBytes(i);
    TwistAt(size, i, WordAt(temp[..], 0));
    if i % keySize == 0 {
      TwistFirst(size, i, temp);
    } else if keySize > 24 && i % keySize == 16 {
      SubWordInPlace(temp);
    }
  }

  lemma ScheduleStep(size: KeySize, key: seq<bv8>, before: seq<bv8>, after: seq<bv8>, n: nat)
    requires |key| == size.Bytes() && size.Words() <= n && IsSchedule(size, key, before, n)
    requires 4 * n + 4 <= |after| && after[..4 * n] == before[..4 * n]
    requires WordAt(after, n) == Plus(WordAt(before, n - size.Words()), Twist(size, n, WordAt(before, n - 1)))
    ensures IsSchedule(size, key, after, n + 1)
  {
    hide Twist, Plus;
    forall i: nat | i < n
      ensures WordAt(after, i) == WordAt(before, i)
    {
      assert after[4 * i .. 4 * i + 4] == after[..4 * n][4 * i .. 4 * i + 4] == before[4 * i .. 4 * i + 4];
    }
  }

  /** The part of the loop body of `expand_key` that stores the new word. */
  method StoreWord(size: KeySize, expandedKey: array<bv8>, i: nat, temp: array<bv8>)
    requires i % 4 == 0 && size.Bytes() <= i && i + 4 <= expandedKey.Length
    requires temp.Length == 4 && temp != expandedKey
    modifies expandedKey
    ensures expandedKey[..i] == old(expandedKey[..i])
    ensures WordAt(expandedKey[..], i / 4)
         == Plus(WordAt(old(expandedKey[..]), i / 4 - size.Words()), WordAt(temp[..], 0))
  {
    hide Add;
    var keySize := size.Bytes();
    for j := 0 to 4
      invariant expandedKey[..i] == old(expandedKey[..i])
      invariant forall l | 0 <= l < j :: expandedKey[i + l] == Add(old(expandedKey[i - keySize + l]), temp[l])
    {
      assert expandedKey[i - keySize + j] == expandedKey[..i][i - keySize + j];
      expandedKey[i + j] := Add(expandedKey[i - keySize + j], temp[j]);
    }
    assert 4 * (i / 4 - size.Words()) == i - keySize;
  }

  /** The first loop of `expand_key`. */
  method CopyKey(size: KeySize, key: array<bv8>, expandedKey: array<bv8>)
    requires key.Length == size.Bytes() && expandedKey.Length == 240 && key != expandedKey
    modifies expandedKey
    ensures IsSchedule(size, key[..], expandedKey[..], size.Words())
  {
    hide Twist, Plus;
    for i := 0 to size.Bytes()
      invariant expandedKey[..i] == key[..i]
    {
      expandedKey[i] := key[i];
    }
    assert forall k | 0 <= k < size.Bytes() :: expandedKey[k] == expandedKey[..size.Bytes()][k];
  }

  /** `expand_key`. */
  method ExpandKey(size: KeySize, key: array<bv8>, expandedKey: array<bv8>)
    requires key.Length == size.Bytes() && expandedKey.Length == 240 && key != expandedKey
    modifies expandedKey
    ensures IsSchedule(size, key[..], expandedKey[..], 4 * (size.Rounds() + 1))
  {
    hide Twist, Plus, WordAt, ScheduleWord, IsSchedule;
    var keySize := size.Bytes();
    CopyKey(size, key, expandedKey);
    var i := keySize;
    while i < 16 * (size.Rounds() + 1)
      invariant i % 4 == 0 && keySize <= i <= 16 * (size.Rounds() + 1)
      invariant IsSchedule(size, key[..], expandedKey[..], i / 4)
    {
      var temp := ScheduleTemp(size, expandedKey, i);
      ghost var before := expandedKey[..];
      StoreWord(size, expandedKey, i, temp);
      ScheduleStep(size, key[..], before, expandedKey[..], i / 4);
      i := i + 4;
    }
  }

  /** `aes_init`: -1 without context or key, -2 for a key length that is not 16, 24 or 32. */
  method AesInit(ctx: Context?, key: array?<bv8>, keyLength: int) returns (status: int)
    requires ctx != null ==> ctx.expandedKey.Length == 240
    requires key != null ==> key.Length == keyLength && (ctx != null ==> key != ctx.expandedKey)
    modifies ctx, if ctx != null then {ctx.expandedKey} else {}
    ensures status == if ctx == null || key == null then -1 else if keyLength !in {16, 24, 32} then -2 else 0
    ensures status == 0 ==>
      && ctx.Valid() && ctx.rounds == keyLength / 4 + 6
      && IsSchedule(SizeOf(keyLength), old(key[..]), ctx.expandedKey[..], 4 * (ctx.rounds + 1))
  {
    if ctx == null || key == null {
      return -1;
    }
    if keyLength !in {16, 24, 32} {
      return -2;
    }
    var size := SizeOf(keyLength);
    ctx.rounds := size.Rounds();
    size.RoundsOfWords();
    ExpandKey(size, key, ctx.expandedKey);
    return 0;
  }

  function SizeOf(keyLength: int): (size: KeySize)
    requires keyLength in {16, 24, 32}
    ensures size.Bytes() == keyLength
  {
    if keyLength == 16 then Aes128 else if keyLength == 24 then Aes192 else Aes256
  }

  /** The schedule begins with the key itself. */
  lemma ScheduleBeginsWithKey(size: KeySize, key: seq<bv8>, w: seq<bv8>, n: nat)
    requires |key| == size.Bytes() && size.Words() <= n && IsSchedule(size, key, w, n)
    ensures w[..size.Bytes()] == key
  {
    forall k | 0 <= k < size.Bytes()
      ensures w[k] == key[k]
    {
      assert WordAt(w, k / 4) == ScheduleWord(size, key, k / 4) == WordAt(key, k / 4);
      assert k == 4 * (k / 4) + k % 4;
    }
  }

  /** Every further word is the sum of the one Nk words before and of the last one, which is
      rotated, sent through the S-box and given a power of x where a group of Nk words begins,
      and sent through the S-box in the middle of a group of eight words. */
  lemma ScheduleGoesOn(size: KeySize, key: seq<bv8>, w: seq<bv8>, n: nat, i: nat)
    requires |key| == size.Bytes() && size.Words() <= i < n && IsSchedule(size, key, w, n)
    ensures var nk, last := |key| / 4, WordAt(w, i - 1);
      WordAt(w, i) == Plus(WordAt(w, i - nk),
        if i % nk == 0 then
          Column(Add(Sbox(last.b), PowerOfX(i / nk - 1)), Sbox(last.c), Sbox(last.d), Sbox(last.a))
        else if nk == 8 && i % 8 == 4 then
          Column(Sbox(last.a), Sbox(last.b), Sbox(last.c), Sbox(last.d))
        else last)
  {
    hide WordAt, Sbox, PowerOfX, Plus, Twist;
    ScheduleRecurs(size, key, w, n, i);
    TwistIs(size, i, WordAt(w, i - 1));
  }

  lemma ScheduleRecurs(size: KeySize, key: seq<bv8>, w: seq<bv8>, n: nat, i: nat)
    requires |key| == size.Bytes() && size.Words() <= i < n && IsSchedule(size, key, w, n)
    ensures WordAt(w, i) == Plus(WordAt(w, i - size.Words()), Twist(size, i, WordAt(w, i - 1)))
  {
    hide WordAt, Plus, Twist;
    assert WordAt(w, i) == ScheduleWord(size, key, i) && WordAt(w, i - 1) == ScheduleWord(size, key, i - 1);
    assert WordAt(w, i - size.Words()) == ScheduleWord(size, key, i - size.Words());
  }

  lemma TwistIs(size: KeySize, i: nat, last: Column)
    requires size.Words() <= i
    ensures i / size.Words() > 0
    ensures Twist(size, i, last) ==
      if i % size.Words() == 0 then
        Column(Add(Sbox(last.b), PowerOfX(i / size.Words() - 1)), Sbox(last.c), Sbox(last.d), Sbox(last.a))
      else if size.Words() == 8 && i % 8 == 4 then
        Column(Sbox(last.a), Sbox(last.b), Sbox(last.c), Sbox(last.d))
      else last
  {
    hide Sbox, Add, PowerOfX;
    AddZero(Sbox(last.c));
    AddZero(Sbox(last.d));
    AddZero(Sbox(last.a));
  }

  lemma PlusInjective(s: Column, t: Column, k: Column)
    requires Plus(s, k) == Plus(t, k)
    ensures s == t
  {
    PlusInverse(s, k);
    PlusInverse(t, k);
  }

  /** Any Nk consecutive words of the schedule determine the key. */
  lemma {:induction false} WindowDeterminesKey(size: KeySize, key: seq<bv8>, key': seq<bv8>, p: nat)
    requires |key| == |key'| == size.Bytes()
    requires forall i: nat | p <= i < p + size.Words() :: ScheduleWord(size, key, i) == ScheduleWord(size, key', i)
    ensures key == key'
  {
    hide Plus, Twist;
    var nk := size.Words();
    if p == 0 {
      forall i | 0 <= i < |key|
        ensures key[i] == key'[i]
      {
        assert ScheduleWord(size, key, i / 4) == ScheduleWord(size, key', i / 4);
      }
    } else {
      var i := p - 1 + nk;
      assert ScheduleWord(size, key, i) == ScheduleWord(size, key', i);
      assert ScheduleWord(size, key, i - 1) == ScheduleWord(size, key', i - 1);
      PlusInjective(ScheduleWord(size, key, p - 1), ScheduleWord(size, key', p - 1),
                    Twist(size, i, ScheduleWord(size, key, i - 1)));
      WindowDeterminesKey(size, key, key', p - 1);
    }
  }

  lemma WordAtSlice(w: seq<bv8>, p: nat, n: nat, k: nat)
    requires p + k < n && 4 * n <= |w|
    ensures WordAt(w[4 * p .. 4 * n], k) == WordAt(w, p + k)
  {
  }

  /** The last bytes of the expanded key, as many as the key has, determine the key. */
  lemma TailDeterminesKey(size: KeySize, key: seq<bv8>, key': seq<bv8>, w: seq<bv8>, w': seq<bv8>, n: nat)
    requires |key| == |key'| == size.Bytes() && size.Words() <= n
    requires IsSchedule(size, key, w, n) && IsSchedule(size, key', w', n)
    requires w[4 * n - size.Bytes() .. 4 * n] == w'[4 * n - size.Bytes() .. 4 * n]
    ensures key == key'
  {
    hide ScheduleWord, WordAt;
    var p := n - size.Words();
    forall i: nat | p <= i < p + size.Words()
      ensures ScheduleWord(size, key, i) == ScheduleWord(size, key', i)
    {
      var tail, tail' := w[4 * p .. 4 * n], w'[4 * p .. 4 * n];
      WordAtSlice(w, p, n, i - p);
      WordAtSlice(w', p, n, i - p);
      assert tail == tail' && WordAt(w, i) == WordAt(w', i);
    }
    WindowDeterminesKey(size, key, key', p);
  }

  const FIXED_WORD := Column(0x52, 0x52, 0x52, 0x52)

  /** A round constant breaks every run of words that the S-box sends to zero. */
  lemma RconBreaksFixedWords(size: KeySize, key: seq<bv8>)
    requires |key| == size.Bytes()
    ensures var nk := size.Words();
            !(ScheduleWord(size, key, nk) == ScheduleWord(size, key, 2 * nk - 1)
              == ScheduleWord(size, key, 2 * nk) == FIXED_WORD)
  {
    hide Plus, Sbox, PowerOfX;
    var nk := size.Words();
    assert size.Rank(2 * nk) == 0 && size.Group(2 * nk) == 2;
    assert ScheduleWord(size, key, 2 * nk) ==
      Plus(ScheduleWord(size, key, nk), Twist(size, 2 * nk, ScheduleWord(size, key, 2 * nk - 1)));
    hide ScheduleWord;
    SecondTwistOfFixed(size);
    MovedByRcon();
  }

  lemma SecondTwistOfFixed(size: KeySize)
    ensures Twist(size, 2 * size.Words(), FIXED_WORD) == Plus(ZERO, Column(2, 0, 0, 0))
  {
    SboxZero(0x52);
    hide Sbox, Plus;
    assert size.Rank(2 * size.Words()) == 0 && size.Group(2 * size.Words()) == 2;
    assert PowerOfX(1) == 2;
  }

  lemma MovedByRcon()
    ensures Plus(FIXED_WORD, Plus(ZERO, Column(2, 0, 0, 0))) != FIXED_WORD
  {
  }

  lemma KeyWord(w: seq<bv8>, rounds: nat, i: nat)
    requires 16 * (rounds + 1) <= |w| && i / 4 <= rounds
    requires KeysOf(w, rounds)[i / 4] == FIXED
    ensures WordAt(w, i) == FIXED_WORD
  {
    var r := i / 4;
    var block: Block := w[16 * r .. 16 * r + 16];
    assert Load(block) == FIXED;
    assert WordAt(w, i) == ColumnAt(block, i % 4);
  }

  /** With a key schedule from `aes_init`, `aes_decrypt_block` never goes back through
      all the states of `aes_encrypt_block`, whatever the key and the block. */
  lemma NoScheduleRetraces(size: KeySize, key: seq<bv8>, w: seq<bv8>, x: State)
    requires |key| == size.Bytes() && IsSchedule(size, key, w, 4 * (size.Rounds() + 1))
    ensures exists r :: 1 <= r <= size.Rounds() && !AES_AS_WRITTEN.Retraces(KeysOf(w, size.Rounds()), x, r)
  {
    hide Plus, Twist, Load, FIXED;
    var nk, n := size.Words(), size.Rounds();
    var keys := KeysOf(w, n);
    WrittenRetracesIff(keys, x);
    if forall r | 1 <= r < |keys| :: AES_AS_WRITTEN.Retraces(keys, x, r) {
      KeyWord(w, n, nk);
      KeyWord(w, n, 2 * nk - 1);
      KeyWord(w, n, 2 * nk);
      RconBreaksFixedWords(size, key);
    }
  }
}
