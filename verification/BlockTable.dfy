/** The one-page array of block records that both the virtual memory table and the kernel heap
    keep, stored as bytes and shifted with `memcpy` (kernel/memory_manager.c). */
module BlockTables {
  import opened Words
  import opened Stdlib

  /** VirtMemoryBlock and DynamicMemoryBlock: two words. */
  datatype Entry = Entry(base: Word, size: Word)

  const SLOTS := 512                // PAGE_SIZE / sizeof(VirtMemoryBlock)

  ghost function EntryAt(s: seq<Byte>, i: nat): Entry
    requires 8 * i + 8 <= |s|
  {
    Entry(WordAt(s, 8 * i), WordAt(s, 8 * i + 4))
  }

  /** The bytes of a table page, read as records. */
  ghost function Entries(s: seq<Byte>): (r: seq<Entry>)
    requires |s| == PAGE_SIZE
    ensures |r| == SLOTS
  {
    seq(SLOTS, i requires 0 <= i < SLOTS => EntryAt(s, i))
  }

  ghost function MovedEntries(t: seq<Entry>, dest: nat, src: nat, count: nat): seq<Entry>
    requires dest + count <= |t| && src + count <= |t|
  {
    t[..dest] + t[src..src + count] + t[dest + count..]
  }

  lemma MovedWord(s: seq<Byte>, dest: nat, src: nat, count: nat, at: nat)
    requires dest + count <= |s| && src + count <= |s| && at + 4 <= |s|
    ensures dest <= at && at + 4 <= dest + count ==>
              WordAt(Moved(s, dest, src, count), at) == WordAt(s, src + (at - dest))
    ensures at + 4 <= dest || dest + count <= at ==> WordAt(Moved(s, dest, src, count), at) == WordAt(s, at)
  {
    MovedByte(s, dest, src, count, at);
    MovedByte(s, dest, src, count, at + 1);
    MovedByte(s, dest, src, count, at + 2);
    MovedByte(s, dest, src, count, at + 3);
  }

  /** Moving whole records moves the records. */
  lemma MovedRecords(s: seq<Byte>, dest: nat, src: nat, count: nat)
    requires |s| == PAGE_SIZE && dest + count <= SLOTS && src + count <= SLOTS
    ensures Entries(Moved(s, 8 * dest, 8 * src, 8 * count)) == MovedEntries(Entries(s), dest, src, count)
  {
    hide Moved, WordAt;
    var r := Moved(s, 8 * dest, 8 * src, 8 * count);
    forall i | 0 <= i < SLOTS ensures Entries(r)[i] == MovedEntries(Entries(s), dest, src, count)[i] {
      MovedWord(s, 8 * dest, 8 * src, 8 * count, 8 * i);
      MovedWord(s, 8 * dest, 8 * src, 8 * count, 8 * i + 4);
    }
  }

  ghost function WithEntry(t: seq<Entry>, k: nat, e: Entry): seq<Entry>
    requires k <= |t|
  {
    t[..k] + [e] + t[k..]
  }

  ghost function WithoutEntry(t: seq<Entry>, k: nat): seq<Entry>
    requires k < |t|
  {
    t[..k] + t[k + 1..]
  }

  lemma FirstSlots(s: seq<Entry>, n: nat, e: Entry)
    requires n + 1 <= |s|
    ensures MovedEntries(s, 1, 0, n)[0 := e][..n + 1] == WithEntry(s[..n], 0, e)
  {}

  lemma MiddleSlots(s: seq<Entry>, n: nat, i: nat, e: Entry)
    requires i < n && n + 2 <= |s|
    ensures MovedEntries(s, i + 2, i + 1, n - i)[i + 1 := e][..n + 1] == WithEntry(s[..n], i + 1, e)
  {}

  lemma LastSlots(s: seq<Entry>, n: nat, e: Entry)
    requires n + 1 <= |s|
    ensures s[n := e][..n + 1] == WithEntry(s[..n], n, e)
  {}

  lemma RemovedSlots(s: seq<Entry>, n: nat, i: nat)
    requires i < n && n + 1 <= |s|
    ensures MovedEntries(s, i, i + 1, n - i)[..n - 1] == WithoutEntry(s[..n], i)
  {
    var r := MovedEntries(s, i, i + 1, n - i);
    forall j | 0 <= j < n - 1 ensures r[j] == WithoutEntry(s[..n], i)[j] {
      assert r[j] == if j < i then s[j] else s[j + 1];
    }
  }

  class BlockTable {
    const bytes: array<Byte>        // the page behind `blocks`
    var count: Word                 // block_count

    ghost predicate Valid()
      reads this
    {
      bytes.Length == PAGE_SIZE && count <= SLOTS
    }

    /** All the records of the page, live or not. */
    ghost function Slots(): (r: seq<Entry>)
      requires Valid()
      reads this, bytes
      ensures |r| == SLOTS
    {
      Entries(bytes[..])
    }

    /** The live records. */
    ghost function Live(): (r: seq<Entry>)
      requires Valid()
      reads this, bytes
      ensures |r| == count
    {
      Slots()[..count]
    }

    method Base(i: Word) returns (v: Word)
      requires Valid() && i < SLOTS
      ensures v == Slots()[i].base
    {
      v := LoadWord(bytes, 8 * i);
    }

    method Size(i: Word) returns (v: Word)
      requires Valid() && i < SLOTS
      ensures v == Slots()[i].size
    {
      v := LoadWord(bytes, 8 * i + 4);
    }

    method Put(i: Word, base: Word, size: Word)
      requires Valid() && i < SLOTS
      modifies bytes
      ensures Slots() == old(Slots())[i := Entry(base, size)]
      ensures WordAt(bytes[..], 8 * i) == base && WordAt(bytes[..], 8 * i + 4) == size
    {
      hide ByteOf;
      StoreWord(bytes, 8 * i, base);
      StoreWord(bytes, 8 * i + 4, size);
      forall j | 0 <= j < SLOTS ensures Slots()[j] == old(Slots())[i := Entry(base, size)][j] {
        if j != i {
          assert forall k | 8 * j <= k < 8 * j + 8 :: bytes[k] == old(bytes[k]);
        }
      }
    }

    /** `memcpy` over whole records. */
    method Shift(dest: Word, src: Word, n: Word)
      requires Valid() && dest + n <= SLOTS && src + n <= SLOTS
      modifies bytes
      ensures Slots() == MovedEntries(old(Slots()), dest, src, n)
    {
      hide Moved;
      MovedRecords(bytes[..], dest, src, n);
      Memcpy(bytes, 8 * dest, 8 * src, 8 * n);
    }
  
    // ----- the insertions and the removal, on live records

    /** Everything moves up one slot and the record goes first. */
    method InsertFirst(base: Word, size: Word)
      requires Valid() && count + 1 <= SLOTS
      modifies this, bytes
      ensures Valid() && count == old(count) + 1
      ensures Live() == WithEntry(old(Live()), 0, Entry(base, size))
    {
      hide MovedEntries, Entries, WithEntry;
      FirstSlots(Slots(), count, Entry(base, size));
      Shift(1, 0, count);
      Put(0, base, size);
      count := count + 1;
    }

    /** The records after slot `i`, and one slot more, move up and the record goes after slot `i`. */
    method InsertAfter(i: Word, base: Word, size: Word)
      requires Valid() && count + 2 <= SLOTS && i < count
      modifies this, bytes
      ensures Valid() && count == old(count) + 1
      ensures Live() == WithEntry(old(Live()), i + 1, Entry(base, size))
    {
      hide MovedEntries, Entries, WithEntry;
      MiddleSlots(Slots(), count, i, Entry(base, size));
      Shift(i + 2, i + 1, count - i);
      Put(i + 1, base, size);
      count := count + 1;
    }

    method Append(base: Word, size: Word)
      requires Valid() && count + 1 <= SLOTS
      modifies this, bytes
      ensures Valid() && count == old(count) + 1
      ensures Live() == WithEntry(old(Live()), old(count), Entry(base, size))
    {
      hide MovedEntries, Entries, WithEntry;
      LastSlots(Slots(), count, Entry(base, size));
      Put(count, base, size);
      count := count + 1;
    }

    /** The records after slot `i`, and one slot more, move down over it. */
    method RemoveAt(i: Word)
      requires Valid() && count + 1 <= SLOTS && i < count
      modifies this, bytes
      ensures Valid() && count == old(count) - 1
      ensures Live() == WithoutEntry(old(Live()), i)
    {
      hide MovedEntries, Entries, WithoutEntry;
      RemovedSlots(Slots(), count, i);
      Shift(i, i + 1, count - i);
      count := count - 1;
    }
  }
}
