/** Saving a heap to a byte stream and restoring it: one packed word for every page, followed by the bytes of the page
    if it is committed. */
module SaveRestore {
  import opened Bits
  import opened Arithmetic
  import opened PageTable
  import opened Geometry
  import opened BaseHeaps
  import opened WatchLaws

  type byte = x: nat | x < 256

  // ----- packed entries

  /** The four flags of a protection as bits: read, write, no-cache, write-combine. */
  function ProtectBits(p: Protection): (r: nat)
    ensures r < 16
  {
    (if p.read then 1 else 0) + (if p.write then 2 else 0) + (if p.noCache then 4 else 0)
    + (if p.writeCombine then 8 else 0)
  }

  function BitsProtect(b: nat): Protection {
    Protection(b % 2 == 1, b / 2 % 2 == 1, b / 4 % 2 == 1, b / 8 % 2 == 1)
  }

  /** Base and count fit their 20-bit fields. */
  predicate Packable(e: PageEntry) {
    e.base < 0x10_0000 && e.count < 0x10_0000
  }

  function StateBits(e: PageEntry): (r: nat)
    ensures r < 4
  {
    (if e.reserved then 1 else 0) + (if e.committed then 2 else 0)
  }

  /** The eight bytes of an entry's word, least significant first: 20 bits of base, 12 unused, 20 bits of count, 4 and 4
      bits of protection, 2 of state and 2 unused. */
  function Pack(e: PageEntry): (r: seq<byte>)
    requires Packable(e)
    ensures |r| == 8
  {
    [e.base % 256, e.base / 256 % 256, e.base / 0x1_0000, 0,
     e.count % 256, e.count / 256 % 256, e.count / 0x1_0000 + 16 * ProtectBits(e.allocationProtect),
     ProtectBits(e.currentProtect) + 16 * StateBits(e)]
  }

  /** A 20-bit number from two bytes and four bits. */
  function Twenty(low: nat, middle: nat, high: nat): nat {
    low + 256 * middle + 0x1_0000 * (high % 16)
  }

  function Unpack(s: seq<byte>): PageEntry {
    if |s| < 8 then FREE_ENTRY
    else
      var state := s[7] / 16;
      PageEntry(Twenty(s[0], s[1], s[2]), Twenty(s[4], s[5], s[6]), BitsProtect(s[6] / 16), BitsProtect(s[7] % 16),
                state % 2 == 1, state / 2 % 2 == 1)
  }

  lemma {:induction false} ProtectRoundTrip(p: Protection)
    ensures BitsProtect(ProtectBits(p)) == p
  {
  }

  lemma {:induction false} TwentyBits(x: nat, flags: nat)
    requires x < 0x10_0000
    ensures x / 0x1_0000 < 16 && Twenty(x % 256, x / 256 % 256, x / 0x1_0000 + 16 * flags) == x
  {
    assert x / 0x1_0000 == x / 256 / 256;
    Nibbles(x / 0x1_0000, flags);
  }

  lemma {:induction false} Nibbles(low: nat, high: nat)
    requires low < 16
    ensures (low + 16 * high) % 16 == low && (low + 16 * high) / 16 == high
  {
  }

  lemma {:induction false} NumbersReadBack(e: PageEntry)
    requires Packable(e)
    ensures Unpack(Pack(e)).base == e.base && Unpack(Pack(e)).count == e.count
  {
    TwentyBits(e.base, 0);
    TwentyBits(e.count, ProtectBits(e.allocationProtect));
  }

  lemma {:induction false} FlagBytes(e: PageEntry)
    requires Packable(e)
    ensures var s := Pack(e);
            && s[6] / 16 == ProtectBits(e.allocationProtect) && s[7] % 16 == ProtectBits(e.currentProtect)
            && s[7] / 16 == StateBits(e)
  {
    TwentyBits(e.count, 0);
    Nibbles(e.count / 0x1_0000, ProtectBits(e.allocationProtect));
    Nibbles(ProtectBits(e.currentProtect), StateBits(e));
  }

  lemma {:induction false} StateReadsBack(e: PageEntry)
    ensures (StateBits(e) % 2 == 1 <==> e.reserved) && (StateBits(e) / 2 % 2 == 1 <==> e.committed)
  {
  }

  lemma {:induction false} UnpackPack(e: PageEntry)
    requires Packable(e)
    ensures Unpack(Pack(e)) == e
  {
    NumbersReadBack(e);
    FlagBytes(e);
    StateReadsBack(e);
    ProtectRoundTrip(e.allocationProtect);
    ProtectRoundTrip(e.currentProtect);
  }

  // ----- records of a stream

  /** What is written for a page. */
  function Record(e: PageEntry, bytes: seq<byte>): seq<byte>
    requires Packable(e)
  {
    Pack(e) + if e.committed then bytes else []
  }

  predicate PackableTo(t: Table, n: nat)
    requires n <= |t|
  {
    forall p :: 0 <= p < n ==> Packable(t[p])
  }

  /** A table that is partitioned into regions has packable entries only. */
  lemma {:induction false} RegionsPackable(t: Table)
    requires Regions(t) && |t| < 0x10_0000
    ensures PackableTo(t, |t|)
  {
    RegionsMean(t);
    forall p: nat | p < |t| ensures Packable(t[p]) {
      assert PageOk(t, p);
    }
  }

  /** What is written for the first `n` pages. */
  function Saved(t: Table, memory: seq<seq<byte>>, n: nat): seq<byte>
    requires n <= |t| && n <= |memory| && PackableTo(t, n)
  {
    if n == 0 then [] else Saved(t, memory, n - 1) + Record(t[n - 1], memory[n - 1])
  }

  /** How the eight bytes of an entry are read; the laws of streams hold for any way that undoes `Pack`. */
  type Decoder = seq<byte> -> PageEntry

  predicate Decodes(d: Decoder, t: Table, n: nat)
    requires n <= |t| && PackableTo(t, n)
  {
    forall p: nat {:trigger t[p]} :: p < n ==> d(Pack(t[p])) == t[p]
  }

  /** The entry that a record at `offset` begins with. */
  function EntryAt(d: Decoder, stream: seq<byte>, offset: nat): PageEntry {
    if offset + 8 <= |stream| then d(stream[offset..offset + 8]) else FREE_ENTRY
  }

  /** The offset of record `i`: earlier records hold page bytes or not. */
  function OffsetOf(d: Decoder, stream: seq<byte>, i: nat, pageSize: nat): nat {
    if i == 0 then 0 else NextOffset(d, stream, OffsetOf(d, stream, i - 1, pageSize), pageSize)
  }

  function NextOffset(d: Decoder, stream: seq<byte>, offset: nat, pageSize: nat): nat {
    offset + 8 + if EntryAt(d, stream, offset).committed then pageSize else 0
  }

  /** The stream holds `n` whole records. */
  ghost predicate Holds(d: Decoder, stream: seq<byte>, n: nat, pageSize: nat) {
    forall i: nat {:trigger OffsetOf(d, stream, i, pageSize)} :: i < n ==>
      NextOffset(d, stream, OffsetOf(d, stream, i, pageSize), pageSize) <= |stream|
  }

  lemma {:induction false} HoldsAt(d: Decoder, stream: seq<byte>, n: nat, pageSize: nat, i: nat)
    requires Holds(d, stream, n, pageSize) && i < n
    ensures NextOffset(d, stream, OffsetOf(d, stream, i, pageSize), pageSize) <= |stream|
  {
  }

  /** Every saved page can be read back at the end of what was saved before it. */
  lemma {:induction false} SavedEntry(d: Decoder, t: Table, memory: seq<seq<byte>>, rest: seq<byte>, i: nat,
                                      pageSize: nat)
    requires i < |t| == |memory| && PackableTo(t, |t|) && Decodes(d, t, |t|) && |memory[i]| == pageSize
    ensures var (stream, offset) := (Saved(t, memory, |t|) + rest, |Saved(t, memory, i)|);
            && EntryAt(d, stream, offset) == t[i]
            && |Saved(t, memory, i + 1)| == NextOffset(d, stream, offset, pageSize) <= |stream|
            && (t[i].committed ==> stream[offset + 8..offset + 8 + pageSize] == memory[i])
  {
    SavedPrefix(t, memory, i + 1, |t|);
    RecordInside(d, Saved(t, memory, |t|) + rest, Saved(t, memory, i), t[i], memory[i]);
  }

  /** Record `i` lies behind the records of the pages before it. */
  lemma {:induction false} SavedOffset(d: Decoder, t: Table, memory: seq<seq<byte>>, rest: seq<byte>, i: nat,
                                       pageSize: nat)
    requires i <= |t| == |memory| && PackableTo(t, |t|) && Decodes(d, t, |t|)
    requires forall p :: 0 <= p < |t| ==> |memory[p]| == pageSize
    ensures OffsetOf(d, Saved(t, memory, |t|) + rest, i, pageSize) == |Saved(t, memory, i)|
  {
    if i > 0 {
      SavedOffset(d, t, memory, rest, i - 1, pageSize);
      SavedEntry(d, t, memory, rest, i - 1, pageSize);
    }
  }

  lemma {:induction false} SavedPrefix(t: Table, memory: seq<seq<byte>>, i: nat, n: nat)
    requires i <= n <= |t| == |memory| && PackableTo(t, n)
    ensures Saved(t, memory, i) <= Saved(t, memory, n)
    decreases n - i
  {
    if i < n {
      SavedPrefix(t, memory, i, n - 1);
    }
  }

  /** A record inside a stream reads back. */
  lemma {:induction false} RecordInside(d: Decoder, stream: seq<byte>, before: seq<byte>, e: PageEntry,
                                        bytes: seq<byte>)
    requires Packable(e) && d(Pack(e)) == e && before + Record(e, bytes) <= stream
    ensures EntryAt(d, stream, |before|) == e
    ensures e.committed ==> stream[|before| + 8..|before| + 8 + |bytes|] == bytes
  {
    var record := Record(e, bytes);
    assert stream[|before|..|before| + |record|] == record;
    assert stream[|before|..|before| + 8] == record[..8] == Pack(e);
    if e.committed {
      assert stream[|before| + 8..|before| + 8 + |bytes|] == record[8..] == bytes;
    }
  }

  /** What is saved and followed by anything holds all records of the heap. */
  lemma {:induction false} SavedHolds(d: Decoder, t: Table, memory: seq<seq<byte>>, rest: seq<byte>, pageSize: nat)
    requires |t| == |memory| && PackableTo(t, |t|) && Decodes(d, t, |t|)
    requires forall p :: 0 <= p < |t| ==> |memory[p]| == pageSize
    ensures Holds(d, Saved(t, memory, |t|) + rest, |t|, pageSize)
  {
    forall i: nat | i < |t|
      ensures var stream := Saved(t, memory, |t|) + rest;
              NextOffset(d, stream, OffsetOf(d, stream, i, pageSize), pageSize) <= |stream|
    {
      SavedOffset(d, t, memory, rest, i, pageSize);
      SavedEntry(d, t, memory, rest, i, pageSize);
    }
  }

  // ----- the two loops

  /** Saves every page of a heap, and the bytes of the committed ones. */
  method Save(heap: BaseHeap, memory: array<seq<byte>>) returns (stream: seq<byte>)
    requires heap.Shape() && memory.Length == heap.g.pages && PackableTo(heap.Table(), heap.g.pages)
    ensures stream == Saved(heap.Table(), memory[..], heap.g.pages)
  {
    stream := [];
    for i := 0 to heap.pageTable.Length
      invariant stream == Saved(heap.Table(), memory[..], i)
    {
      var page := heap.pageTable[i];
      stream := stream + Pack(page);
      if page.committed {
        stream := stream + memory[i];
      }
    }
  }

  /** The access a restore gives to a committed page: write-combining is not looked at. */
  function RestoredAccess(p: Protection): PageAccess {
    if p.read && p.write then ReadWrite else if p.read then ReadOnly else NoAccess
  }

  /** It is the guest's access exactly unless the page is write-combined without the write flag. */
  lemma {:induction false} RestoredAccessExact(p: Protection)
    ensures RestoredAccess(p) == ToPageAccess(p) <==> !(p.read && p.writeCombine && !p.write)
  {
  }

  /** The host accesses after page `i` was restored. */
  function PageRestored(g: Geometry, h: seq<PageAccess>, i: nat, e: PageEntry): seq<PageAccess> {
    if e.committed then Overwrite(h, HostFirst(g, i), HostCount(g, 1), RestoredAccess(e.currentProtect)) else h
  }

  /** The bytes of a page whose record is at `offset`, `before` if the record holds none. */
  function BytesAt(d: Decoder, stream: seq<byte>, offset: nat, pageSize: nat, before: seq<byte>): seq<byte> {
    if EntryAt(d, stream, offset).committed && offset + 8 + pageSize <= |stream|
    then stream[offset + 8..offset + 8 + pageSize] else before
  }

  /** All that a restore changes page by page. */
  datatype Image = Image(table: Table, memory: seq<seq<byte>>, host: seq<PageAccess>)

  function PageStep(d: Decoder, g: Geometry, image: Image, stream: seq<byte>, i: nat, offset: nat): (r: Image)
    requires i < |image.table| && i < |image.memory|
    ensures |r.table| == |image.table| && |r.memory| == |image.memory|
  {
    var e := EntryAt(d, stream, offset);
    Image(image.table[i := e], image.memory[i := BytesAt(d, stream, offset, Pow2(g.pageShift), image.memory[i])],
          PageRestored(g, image.host, i, e))
  }

  /** The image after the first `n` pages were restored. */
  function AfterPages(d: Decoder, g: Geometry, image: Image, stream: seq<byte>, n: nat): (r: Image)
    requires n <= |image.table| && n <= |image.memory|
    ensures |r.table| == |image.table| && |r.memory| == |image.memory|
  {
    if n == 0 then image
    else
      PageStep(d, g, AfterPages(d, g, image, stream, n - 1), stream, n - 1,
               OffsetOf(d, stream, n - 1, Pow2(g.pageShift)))
  }

  /** Restores one page. */
  method RestorePage(decode: Decoder, heap: BaseHeap, memory: array<seq<byte>>, stream: seq<byte>, i: nat, offset: nat)
    returns (next: nat)
    requires heap.Shape() && memory.Length == heap.g.pages && i < heap.g.pages
    requires NextOffset(decode, stream, offset, Pow2(heap.g.pageShift)) <= |stream|
    modifies heap.pageTable, heap.host, memory
    ensures Image(heap.Table(), memory[..], heap.host[..])
            == PageStep(decode, heap.g, Image(old(heap.Table()), old(memory[..]), old(heap.host[..])), stream, i,
                        offset)
    ensures next == NextOffset(decode, stream, offset, Pow2(heap.g.pageShift))
  {
    var page := decode(stream[offset..offset + 8]);
    heap.pageTable[i] := page;
    next := offset + 8;
    if page.committed {
      var pageSize := Pow2(heap.g.pageShift);
      memory[i] := stream[next..next + pageSize];
      next := next + pageSize;
      heap.HostProtect(HostFirst(heap.g, i), HostCount(heap.g, 1), RestoredAccess(page.currentProtect));
    }
  }

  /** Restores page `i` after the pages before it. */
  method RestoreNext(decode: Decoder, heap: BaseHeap, memory: array<seq<byte>>, stream: seq<byte>, ghost image: Image,
                     i: nat, offset: nat)
    returns (next: nat)
    requires heap.Shape() && memory.Length == heap.g.pages && i < heap.g.pages == |image.table| == |image.memory|
    requires Holds(decode, stream, heap.g.pages, Pow2(heap.g.pageShift))
    requires offset == OffsetOf(decode, stream, i, Pow2(heap.g.pageShift))
    requires Image(heap.Table(), memory[..], heap.host[..]) == AfterPages(decode, heap.g, image, stream, i)
    modifies heap.pageTable, heap.host, memory
    ensures next == OffsetOf(decode, stream, i + 1, Pow2(heap.g.pageShift))
    ensures Image(heap.Table(), memory[..], heap.host[..]) == AfterPages(decode, heap.g, image, stream, i + 1)
  {
    HoldsAt(decode, stream, heap.g.pages, Pow2(heap.g.pageShift), i);
    next := RestorePage(decode, heap, memory, stream, i, offset);
  }

  /** Restores page after page. */
  method RestorePages(decode: Decoder, heap: BaseHeap, memory: array<seq<byte>>, stream: seq<byte>)
    returns (offset: nat)
    requires heap.Shape() && memory.Length == heap.g.pages
    requires Holds(decode, stream, heap.g.pages, Pow2(heap.g.pageShift))
    modifies heap.pageTable, heap.host, memory
    ensures Image(heap.Table(), memory[..], heap.host[..])
            == AfterPages(decode, heap.g, Image(old(heap.Table()), old(memory[..]), old(heap.host[..])), stream,
                          heap.g.pages)
    ensures offset == OffsetOf(decode, stream, heap.g.pages, Pow2(heap.g.pageShift))
  {
    ghost var image := Image(heap.Table(), memory[..], heap.host[..]);
    offset := 0;
    for i := 0 to heap.pageTable.Length
      invariant offset == OffsetOf(decode, stream, i, Pow2(heap.g.pageShift))
      invariant Image(heap.Table(), memory[..], heap.host[..]) == AfterPages(decode, heap.g, image, stream, i)
    {
      offset := RestoreNext(decode, heap, memory, stream, image, i, offset);
    }
  }

  /** How many of the first `n` records are of free pages. */
  function FreeRecords(d: Decoder, stream: seq<byte>, n: nat, pageSize: nat): nat {
    if n == 0 then 0
    else
      FreeRecords(d, stream, n - 1, pageSize)
      + if IsFree(EntryAt(d, stream, OffsetOf(d, stream, n - 1, pageSize))) then 1 else 0
  }

  lemma {:induction false} CountRecords(d: Decoder, t: Table, stream: seq<byte>, n: nat, pageSize: nat)
    requires n <= |t| && forall p: nat :: p < n ==> t[p] == EntryAt(d, stream, OffsetOf(d, stream, p, pageSize))
    ensures FreePages(t[..n]) == FreeRecords(d, stream, n, pageSize)
  {
    if n > 0 {
      CountRecords(d, t, stream, n - 1, pageSize);
      assert t[..n][..n - 1] == t[..n - 1];
    }
  }

  /** The restored table has a free page for every such record. */
  lemma {:induction false} RestoredFreePages(d: Decoder, g: Geometry, image: Image, stream: seq<byte>)
    requires |image.table| == |image.memory|
    ensures FreePages(AfterPages(d, g, image, stream, |image.table|).table)
            == FreeRecords(d, stream, |image.table|, Pow2(g.pageShift))
  {
    var t := AfterPages(d, g, image, stream, |image.table|).table;
    forall p: nat | p < |t| ensures t[p] == EntryAt(d, stream, OffsetOf(d, stream, p, Pow2(g.pageShift))) {
      AfterPagesAt(d, g, image, stream, |image.table|, p);
    }
    CountRecords(d, t, stream, |t|, Pow2(g.pageShift));
    assert t[..|t|] == t;
  }

  /** A counter that was exact, and that a restore leaves alone, is exact afterwards exactly when the stream has as many
      records of free pages as the heap had free pages. */
  lemma {:induction false} RestoredCounter(g: Geometry, counter: uint32, image: Image, stream: seq<byte>)
    requires |image.table| == |image.memory| < 0x10_0000 && DriftOf(counter, image.table) == 0
    ensures DriftOf(counter, AfterPages(Unpack, g, image, stream, |image.table|).table) == 0
            <==> FreeRecords(Unpack, stream, |image.table|, Pow2(g.pageShift)) == FreePages(image.table)
  {
    var t := AfterPages(Unpack, g, image, stream, |image.table|).table;
    RestoredFreePages(Unpack, g, image, stream);
    DriftZero(counter, image.table);
    DriftZero(counter, t);
  }

  /** Restores all pages and rebuilds the index. The counter of free pages is left alone. */
  method Restore(heap: BaseHeap, memory: array<seq<byte>>, stream: seq<byte>) returns (offset: nat)
    requires heap.Shape() && memory.Length == heap.g.pages
    requires Holds(Unpack, stream, heap.g.pages, Pow2(heap.g.pageShift))
    modifies heap, heap.pageTable, heap.host, memory
    ensures Image(heap.Table(), memory[..], heap.host[..])
            == AfterPages(Unpack, heap.g, Image(old(heap.Table()), old(memory[..]), old(heap.host[..])), stream,
                          heap.g.pages)
    ensures heap.Indexed() && heap.unreserved == old(heap.unreserved)
    ensures old(heap.Drift()) == 0 ==>
              (heap.Drift() == 0 <==> FreeRecords(Unpack, stream, heap.g.pages, Pow2(heap.g.pageShift))
                                      == FreePages(old(heap.Table())))
    ensures offset == OffsetOf(Unpack, stream, heap.g.pages, Pow2(heap.g.pageShift))
  {
    if heap.Drift() == 0 {
      RestoredCounter(heap.g, heap.unreserved, Image(heap.Table(), memory[..], heap.host[..]), stream);
    }
    offset := RestorePages(Unpack, heap, memory, stream);
    heap.RebuildFreeBlocks();
  }

  /** Every restored page has what its record says and pages not yet restored are as before. */
  lemma {:induction false} AfterPagesAt(d: Decoder, g: Geometry, image: Image, stream: seq<byte>, n: nat, p: nat)
    requires n <= |image.table| == |image.memory| && p < |image.table|
    ensures var (r, offset) := (AfterPages(d, g, image, stream, n), OffsetOf(d, stream, p, Pow2(g.pageShift)));
            && r.table[p] == (if p < n then EntryAt(d, stream, offset) else image.table[p])
            && r.memory[p] == (if p < n then BytesAt(d, stream, offset, Pow2(g.pageShift), image.memory[p])
                               else image.memory[p])
  {
    if n > 0 {
      AfterPagesAt(d, g, image, stream, n - 1, p);
    }
  }

  /** What was saved can be read back, whatever follows in the stream and whatever was there before. */
  ghost predicate ReadsBack(d: Decoder, g: Geometry, t: Table, memory: seq<seq<byte>>, rest: seq<byte>, image: Image)
    requires |t| == |memory| == |image.table| == |image.memory| && PackableTo(t, |t|)
  {
    var stream := Saved(t, memory, |t|) + rest;
    var r := AfterPages(d, g, image, stream, |t|);
    && Holds(d, stream, |t|, Pow2(g.pageShift))
    && OffsetOf(d, stream, |t|, Pow2(g.pageShift)) == |Saved(t, memory, |t|)|
    && r.table == t && forall p :: 0 <= p < |t| ==> r.memory[p] == if t[p].committed then memory[p] else image.memory[p]
  }

  lemma {:induction false} DecoderReadsBack(d: Decoder, g: Geometry, t: Table, memory: seq<seq<byte>>, rest: seq<byte>,
                                            image: Image)
    requires |t| == |memory| == |image.table| == |image.memory| && PackableTo(t, |t|) && Decodes(d, t, |t|)
    requires forall p :: 0 <= p < |t| ==> |memory[p]| == Pow2(g.pageShift)
    ensures ReadsBack(d, g, t, memory, rest, image)
  {
    SavedHolds(d, t, memory, rest, Pow2(g.pageShift));
    SavedOffset(d, t, memory, rest, |t|, Pow2(g.pageShift));
    var r := AfterPages(d, g, image, Saved(t, memory, |t|) + rest, |t|);
    forall p: nat | p < |t|
      ensures r.table[p] == t[p] && r.memory[p] == if t[p].committed then memory[p] else image.memory[p]
    {
      PageReadsBack(d, g, t, memory, rest, image, p);
    }
  }

  /** Restoring what was saved gives back the table, the bytes of every committed page and, since it is rebuilt from the
      table, the index. */
  lemma {:induction false} RestoreUndoesSave(g: Geometry, t: Table, memory: seq<seq<byte>>, rest: seq<byte>,
                                             image: Image)
    requires |t| == |memory| == |image.table| == |image.memory| && Regions(t) && |t| < 0x10_0000
    requires forall p :: 0 <= p < |t| ==> |memory[p]| == Pow2(g.pageShift)
    ensures PackableTo(t, |t|) && ReadsBack(Unpack, g, t, memory, rest, image)
  {
    RegionsPackable(t);
    forall p: nat | p < |t| ensures Unpack(Pack(t[p])) == t[p] {
      UnpackPack(t[p]);
    }
    DecoderReadsBack(Unpack, g, t, memory, rest, image);
  }

  lemma {:induction false} PageReadsBack(d: Decoder, g: Geometry, t: Table, memory: seq<seq<byte>>, rest: seq<byte>,
                                         image: Image, p: nat)
    requires p < |t| == |memory| == |image.table| == |image.memory|
    requires PackableTo(t, |t|) && Decodes(d, t, |t|) && forall i :: 0 <= i < |t| ==> |memory[i]| == Pow2(g.pageShift)
    ensures var r := AfterPages(d, g, image, Saved(t, memory, |t|) + rest, |t|);
            r.table[p] == t[p] && r.memory[p] == if t[p].committed then memory[p] else image.memory[p]
  {
    SavedOffset(d, t, memory, rest, p, Pow2(g.pageShift));
    SavedEntry(d, t, memory, rest, p, Pow2(g.pageShift));
    AfterPagesAt(d, g, image, Saved(t, memory, |t|) + rest, |t|, p);
  }

  /** Restoring a page sets the access of its own host pages. */
  lemma {:induction false} PageRestoredHost(g: Geometry, h: seq<PageAccess>, page: nat, e: PageEntry, i: nat)
    requires SmallPages(g) && InHeap(g, i) && i < |h|
    ensures |PageRestored(g, h, page, e)| == |h|
    ensures PageRestored(g, h, page, e)[i] ==
              if e.committed && GuestPage(g, i) == page then RestoredAccess(e.currentProtect) else h[i]
  {
    GuestRange(g, i, page, 1);
  }

  /** The host access of a page after the first `n` pages were restored, by the record of its guest page. */
  lemma {:induction false} HostAfterPages(d: Decoder, g: Geometry, image: Image, stream: seq<byte>, n: nat, i: nat)
    requires SmallPages(g) && InHeap(g, i) && i < |image.host|
    requires n <= |image.table| == |image.memory|
    ensures |AfterPages(d, g, image, stream, n).host| == |image.host|
    ensures var p := GuestPage(g, i);
            var e := EntryAt(d, stream, OffsetOf(d, stream, p, Pow2(g.pageShift)));
            AfterPages(d, g, image, stream, n).host[i]
              == if p < n && e.committed then RestoredAccess(e.currentProtect) else image.host[i]
  {
    if n > 0 {
      HostAfterPages(d, g, image, stream, n - 1, i);
      PageRestoredHost(g, AfterPages(d, g, image, stream, n - 1).host, n - 1,
                       EntryAt(d, stream, OffsetOf(d, stream, n - 1, Pow2(g.pageShift))), i);
    }
  }

  /** After a restore the host's access to every committed page is the guest's, write-combining aside. */
  lemma {:induction false} RestoredHostAccess(d: Decoder, g: Geometry, image: Image, stream: seq<byte>, n: nat, i: nat)
    requires SmallPages(g) && |image.host| == g.HostPages() && |image.table| == |image.memory| == g.pages
    requires n <= g.pages && InHeap(g, i)
    ensures |AfterPages(d, g, image, stream, n).host| == |image.host| && GuestPage(g, i) < g.pages
    ensures var (r, p) := (AfterPages(d, g, image, stream, n), GuestPage(g, i));
            r.host[i] == if p < n && r.table[p].committed then RestoredAccess(r.table[p].currentProtect)
                         else image.host[i]
  {
    GuestPageInside(g, i);
    HostAfterPages(d, g, image, stream, n, i);
    AfterPagesAt(d, g, image, stream, n, GuestPage(g, i));
  }
}
