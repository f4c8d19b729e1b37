/** Byte memory, words in it, and the block operations of kernel/stdlib.c. */
module Stdlib {
  import opened Words

  const WORD_SIZE := 4

  /** The 32-bit value of four bytes, least significant first. */
  function WordOf(b0: Byte, b1: Byte, b2: Byte, b3: Byte): Word {
    b0 + 0x100 * b1 + 0x1_0000 * b2 + 0x100_0000 * b3
  }

  function ByteOf(v: Word, k: nat): Byte
    requires k < WORD_SIZE
  {
    if k == 0 then v % 0x100
    else if k == 1 then v / 0x100 % 0x100
    else if k == 2 then v / 0x1_0000 % 0x100
    else v / 0x100_0000
  }

  lemma WordBytes(b0: Byte, b1: Byte, b2: Byte, b3: Byte)
    ensures var v := WordOf(b0, b1, b2, b3);
            ByteOf(v, 0) == b0 && ByteOf(v, 1) == b1 && ByteOf(v, 2) == b2 && ByteOf(v, 3) == b3
  {
    var v := WordOf(b0, b1, b2, b3);
    assert v / 0x100 == b1 + 0x100 * b2 + 0x1_0000 * b3;
    assert v / 0x1_0000 == b2 + 0x100 * b3;
  }

  lemma BytesWord(v: Word)
    ensures WordOf(ByteOf(v, 0), ByteOf(v, 1), ByteOf(v, 2), ByteOf(v, 3)) == v
  {
    assert v / 0x1_0000 == v / 0x100 / 0x100;
    assert v / 0x100_0000 == v / 0x1_0000 / 0x100;
  }

  ghost function WordAt(s: seq<Byte>, at: nat): Word
    requires at + WORD_SIZE <= |s|
  {
    WordOf(s[at], s[at + 1], s[at + 2], s[at + 3])
  }

  method LoadWord(mem: array<Byte>, at: nat) returns (v: Word)
    requires at + WORD_SIZE <= mem.Length
    ensures v == WordAt(mem[..], at)
  {
    v := WordOf(mem[at], mem[at + 1], mem[at + 2], mem[at + 3]);
  }

  method StoreWord(mem: array<Byte>, at: nat, v: Word)
    requires at + WORD_SIZE <= mem.Length
    modifies mem
    ensures forall k | 0 <= k < mem.Length ::
              mem[k] == if at <= k < at + WORD_SIZE then ByteOf(v, k - at) else old(mem[k])
    ensures WordAt(mem[..], at) == v
    ensures var b0: int, b1: int, b2: int, b3: int := mem[at], mem[at + 1], mem[at + 2], mem[at + 3];
            v == b0 + 0x100 * b1 + 0x1_0000 * b2 + 0x100_0000 * b3
  {
    mem[at] := ByteOf(v, 0);
    mem[at + 1] := ByteOf(v, 1);
    mem[at + 2] := ByteOf(v, 2);
    mem[at + 3] := ByteOf(v, 3);
    BytesWord(v);
  }

  /** What an overlap-safe move (section 7.24.2.2 of ISO C11, `memmove`) leaves in memory. */
  ghost function Moved(s: seq<Byte>, dest: nat, src: nat, count: nat): (r: seq<Byte>)
    requires dest + count <= |s| && src + count <= |s|
    ensures |r| == |s|
  {
    s[..dest] + s[src..src + count] + s[dest + count..]
  }

  lemma MovedNothing(s: seq<Byte>, dest: nat, src: nat)
    requires dest <= |s| && src <= |s|
    ensures Moved(s, dest, src, 0) == s
  {}

  lemma IsMoved(s: seq<Byte>, r: seq<Byte>, dest: nat, src: nat, count: nat)
    requires dest + count <= |s| && src + count <= |s| && |r| == |s|
    requires forall k | 0 <= k < |s| :: r[k] == if dest <= k < dest + count then s[src + (k - dest)] else s[k]
    ensures r == Moved(s, dest, src, count)
  {
    forall k | 0 <= k < |s| ensures r[k] == Moved(s, dest, src, count)[k] {
      assert r[k] == if dest <= k < dest + count then s[src + (k - dest)] else s[k];
      MovedByte(s, dest, src, count, k);
    }
  }

  /** One four-byte copy through a register; the two words may overlap. */
  method CopyWord(mem: array<Byte>, dest: nat, src: nat)
    requires dest + WORD_SIZE <= mem.Length && src + WORD_SIZE <= mem.Length
    modifies mem
    ensures mem[..] == Moved(old(mem[..]), dest, src, WORD_SIZE)
  {
    hide WordOf, ByteOf;
    ghost var was := mem[..];
    WordBytes(mem[src], mem[src + 1], mem[src + 2], mem[src + 3]);
    var v := LoadWord(mem, src);
    StoreWord(mem, dest, v);
    IsMoved(was, mem[..], dest, src, WORD_SIZE);
  }

  method CopyByte(mem: array<Byte>, dest: nat, src: nat)
    requires dest < mem.Length && src < mem.Length
    modifies mem
    ensures mem[..] == Moved(old(mem[..]), dest, src, 1)
  {
    mem[dest] := mem[src];
  }

  /** Every byte of the destination is the original source byte; no other byte changes. */
  lemma MovedByte(s: seq<Byte>, dest: nat, src: nat, count: nat, k: nat)
    requires dest + count <= |s| && src + count <= |s| && k < |s|
    ensures Moved(s, dest, src, count)[k] == if dest <= k < dest + count then s[src + (k - dest)] else s[k]
  {}

  /** Moving downwards in memory, the lower part may go first. */
  lemma MoveUpwards(s: seq<Byte>, dest: nat, src: nat, m: nat, n: nat)
    requires dest < src && src + m + n <= |s|
    ensures Moved(Moved(s, dest, src, m), dest + m, src + m, n) == Moved(s, dest, src, m + n)
  {
    hide Moved;
    var r := Moved(s, dest, src, m);
    var both, whole := Moved(r, dest + m, src + m, n), Moved(s, dest, src, m + n);
    forall k | 0 <= k < |s| ensures both[k] == whole[k] {
      MovedByte(r, dest + m, src + m, n, k);
      MovedByte(s, dest, src, m + n, k);
      MovedByte(s, dest, src, m, if dest + m <= k < dest + m + n then src + (k - dest) else k);
    }
  }

  /** Moving upwards in memory, the higher part may go first. */
  lemma MoveDownwards(s: seq<Byte>, dest: nat, src: nat, m: nat, n: nat)
    requires src <= dest && dest + m + n <= |s|
    ensures Moved(Moved(s, dest + m, src + m, n), dest, src, m) == Moved(s, dest, src, m + n)
  {
    hide Moved;
    var r := Moved(s, dest + m, src + m, n);
    var both, whole := Moved(r, dest, src, m), Moved(s, dest, src, m + n);
    forall k | 0 <= k < |s| ensures both[k] == whole[k] {
      MovedByte(r, dest, src, m, k);
      MovedByte(s, dest, src, m + n, k);
      MovedByte(s, dest + m, src + m, n, if dest <= k < dest + m then src + (k - dest) else k);
    }
  }

  /** `memcpy`: words and a byte tail, upwards when `dest < src` and downwards otherwise. */
  method Memcpy(mem: array<Byte>, dest: nat, src: nat, count: nat)
    requires dest + count <= mem.Length && src + count <= mem.Length
    modifies mem
    ensures mem[..] == Moved(old(mem[..]), dest, src, count)
  {
    if dest < src {
      MoveUp(mem, dest, src, count);
    } else {
      MoveDown(mem, dest, src, count);
    }
  }

  method MoveUp(mem: array<Byte>, dest: nat, src: nat, count: nat)
    requires dest < src && src + count <= mem.Length
    modifies mem
    ensures mem[..] == Moved(old(mem[..]), dest, src, count)
  {
    hide Moved;
    ghost var was := mem[..];
    MovedNothing(was, dest, src);
    var n := count / 4;
    for i := 0 to n
      invariant mem[..] == Moved(was, dest, src, 4 * i)
    {
      CopyWord(mem, dest + 4 * i, src + 4 * i);
      MoveUpwards(was, dest, src, 4 * i, 4);
    }
    for i := 4 * n to count
      invariant mem[..] == Moved(was, dest, src, i)
    {
      CopyByte(mem, dest + i, src + i);
      MoveUpwards(was, dest, src, i, 1);
    }
  }

  method MoveDown(mem: array<Byte>, dest: nat, src: nat, count: nat)
    requires src <= dest && dest + count <= mem.Length
    modifies mem
    ensures mem[..] == Moved(old(mem[..]), dest, src, count)
  {
    hide Moved;
    ghost var was := mem[..];
    MovedNothing(was, dest + count, src + count);
    var n := count / 4;
    for i := count downto 4 * n
      invariant mem[..] == Moved(was, dest + i, src + i, count - i)
    {
      CopyByte(mem, dest + i, src + i);
      MoveDownwards(was, dest + i, src + i, 1, count - (i + 1));
    }
    for i := n downto 0
      invariant mem[..] == Moved(was, dest + 4 * i, src + 4 * i, count - 4 * i)
    {
      CopyWord(mem, dest + 4 * i, src + 4 * i);
      MoveDownwards(was, dest + 4 * i, src + 4 * i, 4, count - 4 * (i + 1));
    }
  }
}
