/** Embedding stage 2 behind shrunk GPT partition arrays (section 5.3 of the UEFI Specification). */
module GptEmbedding {
  import opened Bits
  import opened Words
  import opened DiskCache
  import opened Installer
  import Crc32

  /** sizeof(struct gpt_entry), and the entry size both headers give. */
  const ENTRY: nat := 128

  // ----- Places ----------------------------------------------------------------------------

  /** stage2_loc_a and stage2_loc_b: the end of 32 blocks of array, less the half's size, rounded down to a block. */
  function Place(lba: nat, lb: nat, size: nat): nat
    requires lb > 0
  {
    And(((lba + 32) * lb % WORD + (WORD - size % WORD)) % WORD, Not64(lb - 1))
  }

  /** Blocks of the partition array that stay in front of a half. */
  function BlocksLeft(lb: nat, size: nat): nat
    requires 0 < lb && size <= 32 * lb
  {
    (32 * lb - size) / lb
  }

  /** A mask of ones above k zero digits rounds down to a multiple of 2^k. */
  lemma RoundDown(x: nat, n: nat, k: nat)
    requires x < Pow2(n) && k <= n
    ensures And(x, Shl(Pow2(n - k) - 1, k)) == x / Pow2(k) * Pow2(k)
  {
    hide Pow2, Shl, Shr, Low, And;
    MaskedParts(x, n, k);
    Split(And(x, Shl(Pow2(n - k) - 1, k)), k);
    ShrIsDiv(x, k);
    ShlIsTimes(Shr(x, k), k);
  }

  lemma MaskedParts(x: nat, n: nat, k: nat)
    requires x < Pow2(n) && k <= n
    ensures var y := And(x, Shl(Pow2(n - k) - 1, k)); Shr(y, k) == Shr(x, k) && Low(y, k) == 0
  {
    hide Pow2, Shl, Shr, Low, And;
    var ones := Pow2(n - k) - 1;
    PositivePower(k);
    Join(ones, 0, k);
    AndSplit(x, Shl(ones, k), k);
    ShrBelow(x, n, k);
    AndMask(Shr(x, k), n - k);
    LowSmall(Shr(x, k), n - k);
    AndZero(Low(x, k));
  }

  lemma MaskShape(n: nat, k: nat)
    requires k <= n
    ensures Pow2(n) - Pow2(k) == Shl(Pow2(n - k) - 1, k)
  {
    ShlOne(k);
    Pow2Add(n - k, k);
    ShlAdd(Pow2(n - k) - 1, 1, k);
  }

  /** For the two logical block sizes the source probes. */
  lemma RoundToBlock(x: nat, lb: nat)
    requires x < WORD && (lb == 512 || lb == 4096)
    ensures And(x, Not64(lb - 1)) == x / lb * lb
  {
    assert Pow2(9) == 512 && Pow2(12) == 4096 by { Pow2Values(); }
    assert Pow2(64) == WORD by { Pow2Large(); }
    hide Pow2, And, Shl;
    var k := if lb == 512 then 9 else 12;
    MaskShape(64, k);
    RoundDown(x, 64, k);
  }

  lemma NoWrap(end: nat, size: nat)
    requires size <= end < WORD
    ensures (end % WORD + (WORD - size % WORD)) % WORD == end - size
  {
  }

  /**
   Without wrap-around a half lies at the start of a block, behind the blocks that
   stay in the array, and ends within the 32 blocks.
   */
  lemma PlaceFits(lba: nat, lb: nat, size: nat)
    requires (lb == 512 || lb == 4096) && (lba + 32) * lb < WORD && size <= 32 * lb
    ensures Place(lba, lb, size) == (lba + BlocksLeft(lb, size)) * lb
    ensures lba * lb <= Place(lba, lb, size) && Place(lba, lb, size) + size <= (lba + 32) * lb
  {
    var x := (lba + 32) * lb - size;
    NoWrap((lba + 32) * lb, size);
    RoundToBlock(x, lb);
    hide And, Not64;
    DivUnique(x, lb, lba + BlocksLeft(lb, size), (32 * lb - size) % lb);
  }

  lemma PositivePower(k: nat)
    ensures 0 < Pow2(k)
  {
  }

  lemma AndZero(x: nat)
    ensures And(x, 0) == 0
  {
  }

  lemma ShrBelow(x: nat, n: nat, k: nat)
    requires x < Pow2(n) && k <= n
    ensures Shr(x, k) < Pow2(n - k)
  {
    ShrCompare(x, Pow2(n - k), k);
    Pow2Add(n - k, k);
  }

  // ----- The arrays --------------------------------------------------------------------------------

  /** new_partition_entry_count */
  function NewCount(lba: nat, lb: nat, locA: nat): nat
    requires lb > 0 && lba <= locA / lb
  {
    (locA / lb - lba) * (lb / ENTRY)
  }

  /** Both shrunk arrays end at or before their half of stage 2, the backup too because its half is no larger. */
  lemma ArraysFit(lba: nat, backup: nat, lb: nat, a: nat, b: nat)
    requires (lb == 512 || lb == 4096) && b <= a <= 32 * lb && (lba + 32) * lb < WORD && (backup + 32) * lb < WORD
    ensures lba <= Place(lba, lb, a) / lb
    ensures var n := NewCount(lba, lb, Place(lba, lb, a));
            && n == BlocksLeft(lb, a) * (lb / ENTRY) && n <= 1024
            && lba * lb + n * ENTRY == Place(lba, lb, a)
            && backup * lb + n * ENTRY <= Place(backup, lb, b)
  {
    hide Place, BlocksLeft;
    PlaceFits(lba, lb, a);
    PlaceFits(backup, lb, b);
    var k := BlocksLeft(lb, a);
    DivUnique((lba + k) * lb, lb, lba + k, 0);
    FewerBlocks(lb, a, b);
    CountBytes(k, lb);
    MulMonotone(backup + k, backup + BlocksLeft(lb, b), lb);
  }

  lemma FewerBlocks(lb: nat, a: nat, b: nat)
    requires (lb == 512 || lb == 4096) && b <= a <= 32 * lb
    ensures BlocksLeft(lb, a) <= BlocksLeft(lb, b) && BlocksLeft(lb, a) <= 32
  {
  }

  lemma CountBytes(k: nat, lb: nat)
    requires lb == 512 || lb == 4096
    ensures k * (lb / ENTRY) * ENTRY == k * lb && (k <= 32 ==> k * (lb / ENTRY) <= 1024)
  {
  }

  predicate InUse(e: seq<Byte>)
    requires |e| == ENTRY
  {
    WordAt(e, 16, 8) != 0 || WordAt(e, 24, 8) != 0
  }

  /** Entry i of the array at base lies on the device and names a partition. */
  ghost predicate EntryUsed(v: seq<Byte>, base: nat, i: nat) {
    base + i * ENTRY + ENTRY <= |v| && InUse(v[base + i * ENTRY..base + i * ENTRY + ENTRY])
  }

  /** The bytes of entry i, as far as they lie on the device. */
  ghost function EntryAt(v: seq<Byte>, base: nat, i: nat): seq<Byte> {
    if base + i * ENTRY + ENTRY <= |v| then v[base + i * ENTRY..base + i * ENTRY + ENTRY] else []
  }

  /** last is the highest used entry among the first count, or -1. */
  ghost predicate IsLast(v: seq<Byte>, base: nat, count: nat, last: int) {
    && -1 <= last < count && (last >= 0 ==> EntryUsed(v, base, last))
    && forall j: nat | last < j < count :: !EntryUsed(v, base, j)
  }

  /** The scan for max_partition_entry_used. */
  method LastUsed(device: Device, base: nat, count: nat) returns (ok: bool, last: int)
    requires device.Valid()
    modifies device`cachedBlock, device`dirty, device.cache, device.disk
    ensures ok ==> device.Valid() && device.View() == old(device.View()) && IsLast(device.View(), base, count, last)
    ensures !device.faulty && device.Readable(0, base + count * ENTRY) ==> ok
  {
    assert device.blockSize > 0;
    hide Device.View, Device.Valid, InUse, Whole;
    last := -1;
    ok := true;
    for i := 0 to count
      invariant device.Valid() && device.View() == old(device.View())
      invariant IsLast(device.View(), base, i, last)
    {
      var entry;
      ok, entry := device.Read(base + i * ENTRY, ENTRY);
      if !ok {
        return;
      }
      if InUse(entry) {
        last := i;
      }
    }
    ok := true;
  }

  function Zeros(n: nat): (z: seq<Byte>)
    ensures |z| == n
  {
    seq(n, _ => 0)
  }

  /** One of the loops that zero out unused entries. */
  method ClearEntries(device: Device, base: nat, first: nat, end: nat) returns (ok: bool)
    requires device.Valid() && first <= end
    modifies device`cachedBlock, device`dirty, device.cache, device.disk
    ensures ok ==> device.Valid() && (first < end ==> base + end * ENTRY <= device.disk.Length)
    ensures ok ==> device.View() == Overlay(old(device.View()), base + first * ENTRY, Zeros((end - first) * ENTRY))
    ensures !device.faulty && (first == end || device.Readable(0, base + end * ENTRY)) ==> ok
  {
    assert device.blockSize > 0;
    hide Device.View, Device.Valid, Overlay, Whole, Zeros;
    ghost var view := device.View();
    OverlayNothing(view, base + first * ENTRY, Zeros(0));
    ok := true;
    for i := first to end
      invariant device.Valid() && (first < i ==> base + i * ENTRY <= device.disk.Length)
      invariant device.View() == Overlay(view, base + first * ENTRY, Zeros((i - first) * ENTRY))
    {
      ok := ClearNext(device, base, first, i, view);
      if !ok {
        return;
      }
    }
    ok := true;
  }

  method ClearNext(device: Device, base: nat, first: nat, i: nat, ghost view: seq<Byte>) returns (ok: bool)
    requires device.Valid() && first <= i && |view| == device.disk.Length
    requires (first < i ==> base + i * ENTRY <= device.disk.Length)
    requires device.View() == Overlay(view, base + first * ENTRY, Zeros((i - first) * ENTRY))
    modifies device`cachedBlock, device`dirty, device.cache, device.disk
    ensures ok ==> device.Valid() && base + (i + 1) * ENTRY <= device.disk.Length
    ensures ok ==> device.View() == Overlay(view, base + first * ENTRY, Zeros((i + 1 - first) * ENTRY))
    ensures !device.faulty && device.Readable(0, base + (i + 1) * ENTRY) ==> ok
  {
    hide Device.View, Device.Valid, Overlay, Whole, Zeros;
    ok := device.Write(Zeros(ENTRY), base + i * ENTRY);
    if ok {
      assert base + first * ENTRY + (i - first) * ENTRY == base + i * ENTRY;
      ZerosMore(view, base + first * ENTRY, i - first);
    }
  }

  lemma ZerosMore(v: seq<Byte>, a: nat, n: nat)
    requires a + n * ENTRY + ENTRY <= |v|
    ensures Overlay(Overlay(v, a, Zeros(n * ENTRY)), a + n * ENTRY, Zeros(ENTRY)) ==
              Overlay(v, a, Zeros((n + 1) * ENTRY))
  {
    var z := Zeros((n + 1) * ENTRY);
    assert z[..n * ENTRY] == Zeros(n * ENTRY) && z[n * ENTRY..][..ENTRY] == Zeros(ENTRY) && z[..n * ENTRY + ENTRY] == z;
    OverlayMore(v, a, z, n * ENTRY, ENTRY);
  }

  // ----- Headers -------------------------------------------------------------------------------------

  /** The checksum of a byte string. */
  function Checksum(bytes: seq<Byte>): nat {
    Crc32.Number(Crc32.SerialCrc(AsBits(bytes)))
  }

  function AsBits(bytes: seq<Byte>): seq<bv8> {
    seq(|bytes|, i requires 0 <= i < |bytes| => Crc32.EightBits(bytes[i]))
  }

  /** A table header with new count and array checksum, and then its own checksum. */
  function NewHeader(h: seq<Byte>, count: nat, crc: nat): (r: seq<Byte>)
    requires |h| == GPT_HEADER
    ensures |r| == GPT_HEADER
  {
    var blank := Put(Put(Put(h, 88, Little(crc, 4)), 80, Little(count, 4)), 16, Little(0, 4));
    Put(blank, 16, Little(Checksum(blank[..92]), 4))
  }

  /** The header's checksum field is the checksum of its first 92 bytes with that field zero. */
  predicate HeaderSound(h: seq<Byte>)
    requires |h| == GPT_HEADER
  {
    WordAt(h, 16, 4) == Checksum(Put(h, 16, Little(0, 4))[..92])
  }

  lemma NewHeaderSound(h: seq<Byte>, count: nat, crc: nat)
    requires |h| == GPT_HEADER && count < 0x1_0000_0000 && crc < 0x1_0000_0000
    ensures var r := NewHeader(h, count, crc);
            HeaderSound(r) && WordAt(r, 80, 4) == count && WordAt(r, 88, 4) == crc
    ensures forall x | 0 <= x < GPT_HEADER && !(16 <= x < 20) && !(80 <= x < 84) && !(88 <= x < 92) ::
              NewHeader(h, count, crc)[x] == h[x]
  {
    var h1 := Put(h, 88, Little(crc, 4));
    var h2 := Put(h1, 80, Little(count, 4));
    var blank := Put(h2, 16, Little(0, 4));
    var sum := Checksum(blank[..92]);
    var r := Put(blank, 16, Little(sum, 4));
    assert Pow2(8 * 4) == 0x1_0000_0000 by { Pow2Word(); }
    hide Pow2, Little, Value, Checksum, WordAt;
    PutOver(h2, 16, Little(0, 4), Little(sum, 4));
    PutOver(blank, 16, Little(sum, 4), Little(0, 4));
    PutOver(h2, 16, Little(0, 4), Little(0, 4));
    PutWord(h, 88, 4, crc, 0, 0);
    PutWord(h1, 80, 4, count, 88, 4);
    PutWord(h2, 16, 4, 0, 80, 4);
    PutWord(h2, 16, 4, 0, 88, 4);
    ChecksumBound(blank[..92]);
    PutWord(blank, 16, 4, sum, 80, 4);
    PutWord(blank, 16, 4, sum, 88, 4);
  }

  lemma ChecksumBound(bytes: seq<Byte>)
    ensures Checksum(bytes) < 0x1_0000_0000
  {
    hide Crc32.SerialCrc;
  }

  // ----- The embedding ---------------------------------------------------------------------------------

  function EntryLba(h: seq<Byte>): nat
    requires |h| == GPT_HEADER
  {
    WordAt(h, 72, 8)
  }

  function EntryCount(h: seq<Byte>): nat
    requires |h| == GPT_HEADER
  {
    WordAt(h, 80, 4)
  }

  function AlternateLba(h: seq<Byte>): nat
    requires |h| == GPT_HEADER
  {
    WordAt(h, 32, 8)
  }

  /** Places of the two arrays and of the backup header, and the bytes of used and of all entries, in bytes. */
  datatype Geometry = Geometry(lb: nat, entries: nat, backup: nat, alternate: nat, used: nat, total: nat)

  /** All writes of the embedding fit on a device of the given size. */
  ghost predicate EmbedFits(size: nat, g: Geometry) {
    && g.used <= g.total && (g.total > 0 ==> g.entries + g.total <= size)
    && (g.used < g.total ==> g.backup + g.total <= size)
    && g.lb + GPT_HEADER <= size && g.alternate + GPT_HEADER <= size
  }

  /** The device after unused entries of both arrays were cleared. */
  ghost function ClearedView(v: seq<Byte>, g: Geometry): (r: seq<Byte>)
    requires EmbedFits(|v|, g)
    ensures |r| == |v|
  {
    var z := Zeros(g.total - g.used);
    Overlay(Overlay(v, g.entries + g.used, z), g.backup + g.used, z)
  }

  /** The first bytes of an array. */
  ghost function ArrayBytes(v: seq<Byte>, base: nat, total: nat): seq<Byte>
    requires total > 0 ==> base + total <= |v|
  {
    if total == 0 then [] else v[base..base + total]
  }

  /** The device with both headers rewritten. */
  ghost function HeadersView(v: seq<Byte>, g: Geometry, p: seq<Byte>, s: seq<Byte>): (r: seq<Byte>)
    requires EmbedFits(|v|, g) && |p| == GPT_HEADER && |s| == GPT_HEADER
    ensures |r| == |v|
  {
    Overlay(Overlay(v, g.lb, p), g.alternate, s)
  }

  /** The checksum of the primary array once its unused entries are cleared. */
  ghost function ArraySum(v: seq<Byte>, g: Geometry): nat
    requires EmbedFits(|v|, g)
  {
    Checksum(ArrayBytes(ClearedView(v, g), g.entries, g.total))
  }

  /** The device after the embedding: entries cleared, both headers rewritten. */
  ghost function EmbedView(v: seq<Byte>, h: seq<Byte>, h2: seq<Byte>, g: Geometry, n: nat): (r: seq<Byte>)
    requires |h| == GPT_HEADER && |h2| == GPT_HEADER && EmbedFits(|v|, g)
    ensures |r| == |v|
  {
    HeadersView(ClearedView(v, g), g, NewHeader(h, n, ArraySum(v, g)), NewHeader(h2, n, ArraySum(v, g)))
  }

  datatype Embedding = Embedded(n: nat, last: int) | TooManyUsed | Broken

  /** Both loops that clear entries. */
  method ClearBoth(device: Device, ghost g: Geometry, base: nat, backup: nat, n: nat, last: int) returns (ok: bool)
    requires device.Valid() && -1 <= last < n
    requires g.entries == base && g.backup == backup && g.used == (last + 1) * ENTRY && g.total == n * ENTRY
    modifies device`cachedBlock, device`dirty, device.cache, device.disk
    ensures ok ==> device.Valid()
    ensures ok && EmbedFits(device.disk.Length, g) ==> device.View() == ClearedView(old(device.View()), g)
    ensures ok && g.used < g.total ==>
              g.entries + g.total <= device.disk.Length && g.backup + g.total <= device.disk.Length
    ensures !device.faulty && EmbedFits(Whole(device.disk.Length, device.blockSize), g) ==> ok
  {
    hide Device.View, Device.Valid, Overlay, Zeros, Whole;
    ok := ClearEntries(device, base, last + 1, n);
    if !ok {
      return;
    }
    ok := ClearEntries(device, backup, last + 1, n);
  }

  /** The array is read for its checksum, then both headers are written. */
  method RewriteHeaders(device: Device, h: seq<Byte>, h2: seq<Byte>, g: Geometry, n: nat) returns (ok: bool)
    requires device.Valid() && |h| == GPT_HEADER && |h2| == GPT_HEADER
    modifies device`cachedBlock, device`dirty, device.cache, device.disk
    ensures ok ==> device.Valid() && (g.total > 0 ==> g.entries + g.total <= device.disk.Length)
    ensures ok ==> g.lb + GPT_HEADER <= device.disk.Length && g.alternate + GPT_HEADER <= device.disk.Length
    ensures ok && EmbedFits(device.disk.Length, g) ==>
              var v := old(device.View());
              var crc := Checksum(ArrayBytes(v, g.entries, g.total));
              device.View() == HeadersView(v, g, NewHeader(h, n, crc), NewHeader(h2, n, crc))
    ensures !device.faulty && EmbedFits(Whole(device.disk.Length, device.blockSize), g) ==> ok
  {
    hide Device.View, Device.Valid, Overlay, NewHeader, Checksum, Whole;
    var bytes;
    ok, bytes := device.Read(g.entries, g.total);
    if !ok {
      return;
    }
    var crc := Sum(bytes);
    ok := device.Write(NewHeader(h, n, crc), g.lb);
    if !ok {
      return;
    }
    ok := device.Write(NewHeader(h2, n, crc), g.alternate);
  }

  /** The writes of the embedding, once count and last used entry are known. */
  method Rewrite(device: Device, h: seq<Byte>, h2: seq<Byte>, g: Geometry, n: nat, last: int) returns (ok: bool)
    requires device.Valid() && |h| == GPT_HEADER && |h2| == GPT_HEADER && -1 <= last < n
    requires g.used == (last + 1) * ENTRY && g.total == n * ENTRY
    modifies device`cachedBlock, device`dirty, device.cache, device.disk
    ensures ok ==> device.Valid() && EmbedFits(device.disk.Length, g)
    ensures ok ==> device.View() == EmbedView(old(device.View()), h, h2, g, n)
    ensures !device.faulty && EmbedFits(Whole(device.disk.Length, device.blockSize), g) ==> ok
  {
    hide Device.View, Device.Valid, HeadersView, NewHeader, Checksum, Whole, ClearedView, ArrayBytes;
    ok := ClearBoth(device, g, g.entries, g.backup, n, last);
    if !ok {
      return;
    }
    ok := RewriteHeaders(device, h, h2, g, n);
  }

  /** crc32 as the installer calls it. */
  method Sum(bytes: seq<Byte>) returns (sum: nat)
    ensures sum == Checksum(bytes)
  {
    hide Crc32.SerialCrc;
    var crc := Crc32.Crc(AsBits(bytes));
    sum := crc as nat;
  }

  function GeometryOf(h: seq<Byte>, h2: seq<Byte>, lb: nat, n: nat, last: int): Geometry
    requires |h| == GPT_HEADER && |h2| == GPT_HEADER && -1 <= last
  {
    Geometry(lb, EntryLba(h) * lb, EntryLba(h2) * lb, lb * AlternateLba(h), (last + 1) * ENTRY, n * ENTRY)
  }

  /** What main asks of the headers: entries of 128 bytes, and places that do not wrap around. */
  predicate Embeddable(h: seq<Byte>, h2: seq<Byte>, lb: nat) {
    && |h| == GPT_HEADER && |h2| == GPT_HEADER && (lb == 512 || lb == 4096)
    && WordAt(h, 84, 4) == ENTRY && WordAt(h2, 84, 4) == ENTRY
    && (EntryLba(h) + 32) * lb < WORD && (EntryLba(h2) + 32) * lb < WORD && lb * AlternateLba(h) < WORD
  }

  /** Both arrays with 32 blocks, all entries and both headers lie on a device of the given size. */
  ghost predicate OnDevice(size: nat, h: seq<Byte>, h2: seq<Byte>, lb: nat)
    requires |h| == GPT_HEADER && |h2| == GPT_HEADER
  {
    && EntryLba(h) * lb + EntryCount(h) * ENTRY <= size
    && EntryLba(h) * lb + 32 * lb <= size && EntryLba(h2) * lb + 32 * lb <= size
    && lb + GPT_HEADER <= size && lb * AlternateLba(h) + GPT_HEADER <= size
  }

  lemma EmbedFitsOn(size: nat, h: seq<Byte>, h2: seq<Byte>, lb: nat, a: nat, b: nat, n: nat, last: int)
    requires Embeddable(h, h2, lb) && b <= a <= 32 * lb && -1 <= last < n && n == BlocksLeft(lb, a) * (lb / ENTRY)
    requires OnDevice(size, h, h2, lb)
    ensures EmbedFits(size, GeometryOf(h, h2, lb, n, last))
  {
    hide WordAt, Place, BlocksLeft;
    HalvesBehind(h, h2, lb, a, b, last);
  }

  /** A used entry lies beyond the new count. */
  ghost predicate TooFull(v: seq<Byte>, h: seq<Byte>, lb: nat, a: nat)
    requires |h| == GPT_HEADER && 0 < lb && a <= 32 * lb
  {
    exists last :: IsLast(v, EntryLba(h) * lb, EntryCount(h), last) && BlocksLeft(lb, a) * (lb / ENTRY) <= last
  }

  /** GPT embedding: scan, place, check the count, then rewrite. */
  method Embed(device: Device, h: seq<Byte>, h2: seq<Byte>, lb: nat, a: nat, b: nat)
    returns (r: Embedding, locA: nat, locB: nat)
    requires device.Valid() && Embeddable(h, h2, lb) && b <= a <= 32 * lb
    modifies device`cachedBlock, device`dirty, device.cache, device.disk
    ensures locA == Place(EntryLba(h), lb, a) && locB == Place(EntryLba(h2), lb, b)
    ensures !r.Broken? ==> device.Valid()
    ensures r.TooManyUsed? ==> device.View() == old(device.View()) && TooFull(device.View(), h, lb, a)
    ensures r.Embedded? ==>
              var v := old(device.View());
              && r.n == BlocksLeft(lb, a) * (lb / ENTRY) && -1 <= r.last < r.n
              && IsLast(v, EntryLba(h) * lb, EntryCount(h), r.last)
              && EmbedFits(|v|, GeometryOf(h, h2, lb, r.n, r.last))
              && device.View() == EmbedView(v, h, h2, GeometryOf(h, h2, lb, r.n, r.last), r.n)
    ensures !device.faulty && OnDevice(Whole(device.disk.Length, device.blockSize), h, h2, lb) ==> !r.Broken?
  {
    assert device.blockSize > 0;
    hide Device.View, Device.Valid, Overlay, NewHeader, Checksum, EmbedFits, EmbedView, IsLast, Place, BlocksLeft;
    hide WordAt, Whole;
    ArraysFit(EntryLba(h), EntryLba(h2), lb, a, b);
    locA, locB := Place(EntryLba(h), lb, a), Place(EntryLba(h2), lb, b);
    var base := EntryLba(h) * lb;
    var ok, last := LastUsed(device, base, EntryCount(h));
    if !ok {
      return Broken, locA, locB;
    }
    var n := NewCount(EntryLba(h), lb, locA);
    if n <= last {
      return TooManyUsed, locA, locB;
    }
    LastAtLeast(device.View(), base, EntryCount(h), last);
    if OnDevice(Whole(device.disk.Length, device.blockSize), h, h2, lb) {
      EmbedFitsOn(Whole(device.disk.Length, device.blockSize), h, h2, lb, a, b, n, last);
    }
    ok := Rewrite(device, h, h2, GeometryOf(h, h2, lb, n, last), n, last);
    r := if ok then Embedded(n, last) else Broken;
  }

  lemma LastAtLeast(v: seq<Byte>, base: nat, count: nat, last: int)
    requires IsLast(v, base, count, last)
    ensures -1 <= last
  {
  }

  // ----- The whole install on a GPT device ---------------------------------------------------------------

  ghost predicate Disjoint(a: nat, n: nat, b: nat, k: nat) {
    a + n <= b || b + k <= a
  }

  /** Sector 0, both headers and the first 32 blocks of both arrays do not overlap. */
  ghost predicate Separate(g: Geometry) {
    && SECTOR <= g.lb && SECTOR <= g.entries && SECTOR <= g.backup && SECTOR <= g.alternate
    && Disjoint(g.lb, GPT_HEADER, g.entries, 32 * g.lb) && Disjoint(g.lb, GPT_HEADER, g.backup, 32 * g.lb)
    && Disjoint(g.alternate, GPT_HEADER, g.entries, 32 * g.lb) && Disjoint(g.alternate, GPT_HEADER, g.backup, 32 * g.lb)
    && Disjoint(g.lb, GPT_HEADER, g.alternate, GPT_HEADER) && Disjoint(g.entries, 32 * g.lb, g.backup, 32 * g.lb)
  }

  /** The halves follow the shrunk arrays inside their 32 blocks. */
  ghost predicate Behind(g: Geometry, locA: nat, a: nat, locB: nat, b: nat) {
    && g.entries + g.total <= locA && locA + a <= g.entries + 32 * g.lb
    && g.backup + g.total <= locB && locB + b <= g.backup + 32 * g.lb
  }

  /** What Embed computes puts the halves there. */
  lemma HalvesBehind(h: seq<Byte>, h2: seq<Byte>, lb: nat, a: nat, b: nat, last: int)
    requires Embeddable(h, h2, lb) && b <= a <= 32 * lb && -1 <= last
    ensures Behind(GeometryOf(h, h2, lb, BlocksLeft(lb, a) * (lb / ENTRY), last), Place(EntryLba(h), lb, a), a,
                   Place(EntryLba(h2), lb, b), b)
  {
    hide WordAt, Place, BlocksLeft;
    ArraysFit(EntryLba(h), EntryLba(h2), lb, a, b);
    PlaceFits(EntryLba(h), lb, a);
    PlaceFits(EntryLba(h2), lb, b);
  }

  /** A byte after the headers were rewritten. */
  lemma HeadersAt(v: seq<Byte>, g: Geometry, p: seq<Byte>, s: seq<Byte>, x: nat)
    requires EmbedFits(|v|, g) && |p| == GPT_HEADER && |s| == GPT_HEADER && x < |v|
    ensures HeadersView(v, g, p, s)[x] ==
            if g.alternate <= x < g.alternate + GPT_HEADER then s[x - g.alternate]
            else if g.lb <= x < g.lb + GPT_HEADER then p[x - g.lb]
            else v[x]
  {
    hide Overlay;
    OverlayAt(v, g.lb, p, x);
    OverlayAt(Overlay(v, g.lb, p), g.alternate, s, x);
  }

  /** A byte after the unused entries were cleared. */
  lemma ClearedAt(v: seq<Byte>, g: Geometry, x: nat)
    requires EmbedFits(|v|, g) && x < |v|
    ensures ClearedView(v, g)[x] ==
            if g.entries + g.used <= x < g.entries + g.total || g.backup + g.used <= x < g.backup + g.total then 0
              else v[x]
  {
    var z := Zeros(g.total - g.used);
    hide Overlay;
    OverlayAt(v, g.entries + g.used, z, x);
    OverlayAt(Overlay(v, g.entries + g.used, z), g.backup + g.used, z, x);
  }

  /** What the install needs: a separated GPT layout, and stage 2 halves whose recorded sizes are right. */
  ghost predicate Ready(size: nat, g: Geometry, img: seq<Byte>, locA: nat, locB: nat) {
    && EmbedFits(size, g) && Fits(size, img, locA, locB) && Separate(g)
    && Sectors(|img| - SECTOR) <= 254
    && Behind(g, locA, SizeA(|img| - SECTOR), locB, SizeB(|img| - SECTOR))
  }

  /** The bytes of the shrunk arrays and of both headers are not touched when stage 2 is written. */
  lemma StagesElsewhere(w: seq<Byte>, g: Geometry, img: seq<Byte>, locA: nat, locB: nat, x: nat)
    requires Ready(|w|, g, img, locA, locB) && x < |w|
    requires g.entries <= x < g.entries + g.total || g.backup <= x < g.backup + g.total ||
             g.lb <= x < g.lb + GPT_HEADER || g.alternate <= x < g.alternate + GPT_HEADER
    ensures BootView(w, img, locA, locB)[x] == w[x]
  {
    hide SizeA, SizeB, Sectors, BootView, Separate, Behind;
    SizesCover(|img| - SECTOR);
    OutsideHalves(g, locA, SizeA(|img| - SECTOR), locB, SizeB(|img| - SECTOR), x);
    BootBehind(w, img, locA, locB, x);
  }

  lemma OutsideHalves(g: Geometry, locA: nat, a: nat, locB: nat, b: nat, x: nat)
    requires Separate(g) && Behind(g, locA, a, locB, b)
    requires g.entries <= x < g.entries + g.total || g.backup <= x < g.backup + g.total ||
             g.lb <= x < g.lb + GPT_HEADER || g.alternate <= x < g.alternate + GPT_HEADER
    ensures SECTOR <= x && !(locA <= x < locA + a) && !(locB <= x < locB + b)
  {
  }

  /** Entries up to the last used one are as before in both arrays, the rest of the shrunk arrays is zero. */
  lemma ArraySurvives(v: seq<Byte>, h: seq<Byte>, h2: seq<Byte>, g: Geometry, n: nat, img: seq<Byte>, locA: nat,
                      locB: nat, x: nat)
    requires |h| == GPT_HEADER && |h2| == GPT_HEADER && Ready(|v|, g, img, locA, locB) && x < |v|
    requires g.entries <= x < g.entries + g.total || g.backup <= x < g.backup + g.total
    ensures BootView(EmbedView(v, h, h2, g, n), img, locA, locB)[x] == ClearedView(v, g)[x]
    ensures BootView(EmbedView(v, h, h2, g, n), img, locA, locB)[x] ==
            if g.entries <= x < g.entries + g.used || g.backup <= x < g.backup + g.used then v[x] else 0
  {
    StagesElsewhere(EmbedView(v, h, h2, g, n), g, img, locA, locB, x);
    ClearedAt(v, g, x);
    var crc := ArraySum(v, g);
    HeadersAt(ClearedView(v, g), g, NewHeader(h, n, crc), NewHeader(h2, n, crc), x);
    hide SizeA, SizeB, Sectors, Fits, BootView, ClearedView, NewHeader, ArraySum, HeadersView;
  }

  /**
   The headers on the installed device are sound: each carries its own checksum,
   and the array checksum that both record is the one of the primary array there.
   */
  lemma ChecksumsSound(v: seq<Byte>, h: seq<Byte>, h2: seq<Byte>, g: Geometry, n: nat, img: seq<Byte>, locA: nat,
                       locB: nat)
    requires |h| == GPT_HEADER && |h2| == GPT_HEADER && Ready(|v|, g, img, locA, locB) && n < 0x1_0000_0000
    ensures var f := BootView(EmbedView(v, h, h2, g, n), img, locA, locB);
            && RecordsAt(f, g.lb, n, Checksum(ArrayBytes(f, g.entries, g.total)))
            && RecordsAt(f, g.alternate, n, Checksum(ArrayBytes(f, g.entries, g.total)))
  {
    hide Checksum, NewHeader, ClearedView, ArrayBytes, EmbedView, BootView, HeaderSound, WordAt, Separate, Behind;
    hide Fits, Sectors, SizeA, SizeB;
    ArrayUnchanged(v, h, h2, g, n, img, locA, locB);
    HeadersUnchanged(v, h, h2, g, n, img, locA, locB);
    ChecksumBound(ArrayBytes(ClearedView(v, g), g.entries, g.total));
    NewHeaderSound(h, n, ArraySum(v, g));
    NewHeaderSound(h2, n, ArraySum(v, g));
  }

  /** There is a sound header at the address, and it records this count and array checksum. */
  ghost predicate RecordsAt(f: seq<Byte>, at: nat, n: nat, crc: nat) {
    && at + GPT_HEADER <= |f|
    && var h := f[at..at + GPT_HEADER]; HeaderSound(h) && WordAt(h, 80, 4) == n && WordAt(h, 88, 4) == crc
  }

  /** The used entries of both arrays agree on the device v. */
  ghost predicate UsedAgree(v: seq<Byte>, g: Geometry)
    requires g.entries + g.used <= |v| && g.backup + g.used <= |v|
  {
    v[g.entries..g.entries + g.used] == v[g.backup..g.backup + g.used]
  }

  /** The used entries of the array at base, followed by zeros up to the size of the shrunk array. */
  ghost function Shrunk(v: seq<Byte>, g: Geometry, base: nat): seq<Byte>
    requires g.used <= g.total && base + g.used <= |v|
  {
    v[base..base + g.used] + Zeros(g.total - g.used)
  }

  /**
   On the installed device both arrays are equal if and only if their used entries
   agreed before. The backup header records the checksum of its own array if and only
   if the checksums of both shrunk arrays are equal.
   */
  lemma BackupSound(v: seq<Byte>, h: seq<Byte>, h2: seq<Byte>, g: Geometry, n: nat, img: seq<Byte>, locA: nat,
                    locB: nat)
    requires |h| == GPT_HEADER && |h2| == GPT_HEADER && Ready(|v|, g, img, locA, locB) && n < 0x1_0000_0000
    requires g.entries + g.total <= |v| && g.backup + g.total <= |v|
    ensures var f := BootView(EmbedView(v, h, h2, g, n), img, locA, locB);
            && (ArrayBytes(f, g.entries, g.total) == ArrayBytes(f, g.backup, g.total) <==> UsedAgree(v, g))
            && (RecordsAt(f, g.alternate, n, Checksum(ArrayBytes(f, g.backup, g.total))) <==>
                Checksum(Shrunk(v, g, g.entries)) == Checksum(Shrunk(v, g, g.backup)))
  {
    hide Checksum, EmbedView, BootView, HeaderSound, WordAt, Separate, Behind, Fits, Sectors, SizeA, SizeB;
    hide ArrayBytes, Zeros;
    BothArrays(v, h, h2, g, n, img, locA, locB);
    SamePrefix(v[g.entries..g.entries + g.used], v[g.backup..g.backup + g.used], Zeros(g.total - g.used));
    ChecksumsSound(v, h, h2, g, n, img, locA, locB);
  }

  /** The used entries of both arrays agree but for four bytes in a row, at most. */
  ghost predicate AgreeBut(v: seq<Byte>, g: Geometry, k: nat)
    requires g.entries + g.used <= |v| && g.backup + g.used <= |v|
  {
    var a, b := v[g.entries..g.entries + g.used], v[g.backup..g.backup + g.used];
    k + 4 <= g.used && a[..k] == b[..k] && a[k + 4..] == b[k + 4..]
  }

  /**
   Where the used entries differ in a single byte, or within four bytes in a row, the
   backup header always records a wrong checksum.
   */
  lemma BackupWrong(v: seq<Byte>, h: seq<Byte>, h2: seq<Byte>, g: Geometry, n: nat, img: seq<Byte>, locA: nat,
                    locB: nat, k: nat)
    requires |h| == GPT_HEADER && |h2| == GPT_HEADER && Ready(|v|, g, img, locA, locB) && n < 0x1_0000_0000
    requires g.entries + g.total <= |v| && g.backup + g.total <= |v| && AgreeBut(v, g, k)
    ensures var f := BootView(EmbedView(v, h, h2, g, n), img, locA, locB);
            RecordsAt(f, g.alternate, n, Checksum(ArrayBytes(f, g.backup, g.total))) <==> UsedAgree(v, g)
  {
    hide Checksum, EmbedView, BootView, RecordsAt, Separate, Behind, Fits, Sectors, SizeA, SizeB, ArrayBytes, Zeros;
    BackupSound(v, h, h2, g, n, img, locA, locB);
    var a, b := v[g.entries..g.entries + g.used], v[g.backup..g.backup + g.used];
    WindowShown(a, b, k, Zeros(g.total - g.used));
  }

  /** Strings that differ within four bytes at most have different checksums, whatever follows. */
  lemma WindowShown(a: seq<Byte>, b: seq<Byte>, k: nat, z: seq<Byte>)
    requires |a| == |b| && k + 4 <= |a| && a[..k] == b[..k] && a[k + 4..] == b[k + 4..]
    ensures Checksum(a + z) == Checksum(b + z) <==> a == b
  {
    hide Crc32.SerialCrc, AsBits;
    var p, d, e, rest := a[..k], a[k..k + 4], b[k..k + 4], a[k + 4..];
    ThreeParts(a, k, z);
    ThreeParts(b, k, z);
    BitsJoin(p, d, rest + z);
    BitsJoin(p, e, rest + z);
    BitsSame(d, e);
    ChecksumsSame(a + z, b + z);
    Crc32.BurstShown(AsBits(p), AsBits(d), AsBits(e), AsBits(rest + z));
  }

  lemma ThreeParts(a: seq<Byte>, k: nat, z: seq<Byte>)
    requires k + 4 <= |a|
    ensures a == a[..k] + a[k..k + 4] + a[k + 4..] && a + z == a[..k] + a[k..k + 4] + (a[k + 4..] + z)
  {
  }

  lemma ChecksumsSame(x: seq<Byte>, y: seq<Byte>)
    ensures Checksum(x) == Checksum(y) <==> Crc32.SerialCrc(AsBits(x)) == Crc32.SerialCrc(AsBits(y))
  {
    hide Crc32.SerialCrc, AsBits, Crc32.Number, Crc32.Register;
    Crc32.NumberBack(Crc32.SerialCrc(AsBits(x)));
    Crc32.NumberBack(Crc32.SerialCrc(AsBits(y)));
  }

  lemma BitsJoin(p: seq<Byte>, d: seq<Byte>, z: seq<Byte>)
    ensures AsBits(p + d + z) == AsBits(p) + AsBits(d) + AsBits(z) && |AsBits(d)| == |d|
  {
    hide Crc32.EightBits;
  }

  lemma BitsSame(d: seq<Byte>, e: seq<Byte>)
    requires |d| == |e|
    ensures AsBits(d) == AsBits(e) <==> d == e
  {
    if AsBits(d) == AsBits(e) {
      forall i | 0 <= i < |d| ensures d[i] == e[i] {
        BitsAt(d, i);
        BitsAt(e, i);
      }
    }
    hide AsBits;
  }

  lemma BitsAt(d: seq<Byte>, i: nat)
    requires i < |d|
    ensures Crc32.EightNumber(AsBits(d)[i]) == d[i]
  {
    hide Crc32.EightBits, Crc32.EightNumber;
    Crc32.EightBack(d[i]);
  }

  /** A device of 67 blocks of zeros, except that the first entry of the primary array is in use. */
  function OneSided(): seq<Byte> {
    seq(34304, x => if x == 1040 then 1 else 0)
  }

  /** Its layout: primary array, backup array and backup header follow each other; a boot image of one sector. */
  const ONE_SIDED: Geometry := Geometry(512, 1024, 17408, 33792, ENTRY, 128 * ENTRY)

  lemma {:induction false} ValueZero(s: seq<Byte>)
    ensures Value(s) == 0 <==> forall k | 0 <= k < |s| :: s[k] == 0
    decreases |s|
  {
    if s != [] {
      ValueZero(s[1..]);
      assert s == [s[0]] + s[1..];
    }
  }

  lemma OneSidedEntry(j: nat)
    requires j < 128
    ensures EntryUsed(OneSided(), 1024, j) <==> j == 0
  {
    hide Value;
    var v, a := OneSided(), 1024 + j * ENTRY;
    assert |v| == 34304 && forall x | 0 <= x < |v| :: v[x] == if x == 1040 then 1 else 0;
    hide OneSided;
    Inner(v, a, 16, 24);
    Inner(v, a, 24, 32);
    ValueZero(v[a + 16..a + 24]);
    ValueZero(v[a + 24..a + 32]);
    assert v[a + 16..a + 24][0] == v[a + 16];
  }

  lemma Inner(v: seq<Byte>, a: nat, i: nat, k: nat)
    requires i <= k <= ENTRY && a + ENTRY <= |v|
    ensures v[a..a + ENTRY][i..k] == v[a + i..a + k]
  {
    var e := v[a..a + ENTRY];
    forall x | i <= x < k ensures e[x] == v[a + x] && e[i..k][x - i] == e[x] && v[a + i..a + k][x - i] == v[a + x] {
    }
  }

  lemma OneSidedUsed()
    ensures IsLast(OneSided(), 1024, 128, 0)
  {
    hide OneSided, EntryUsed;
    forall j: nat | j < 128 ensures EntryUsed(OneSided(), 1024, j) <==> j == 0 {
      OneSidedEntry(j);
    }
  }

  lemma OneSidedAgree()
    ensures AgreeBut(OneSided(), ONE_SIDED, 16)
  {
    var v, g := OneSided(), ONE_SIDED;
    var a, b := v[g.entries..g.entries + g.used], v[g.backup..g.backup + g.used];
    forall x | 0 <= x < ENTRY ensures a[x] == (if x == 16 then 1 else 0) && b[x] == 0 {
    }
    hide OneSided;
    assert a[..16] == b[..16];
    assert a[20..] == b[20..];
  }

  /** After the install the backup header does not record the checksum of the backup array. */
  lemma BackupWrongCase(h: seq<Byte>, h2: seq<Byte>)
    requires |h| == GPT_HEADER && |h2| == GPT_HEADER
    ensures var v, g := OneSided(), ONE_SIDED;
            && Ready(|v|, g, Zeros(SECTOR), 17408, 33792) && IsLast(v, g.entries, 128, 0)
            && var f := BootView(EmbedView(v, h, h2, g, 128), Zeros(SECTOR), 17408, 33792);
            !RecordsAt(f, g.alternate, 128, Checksum(ArrayBytes(f, g.backup, g.total)))
  {
    hide EmbedView, BootView, RecordsAt, Checksum, IsLast, AgreeBut;
    OneSidedUsed();
    OneSidedAgree();
    var v, g := OneSided(), ONE_SIDED;
    assert v[g.entries..g.entries + g.used][16] == 1 && v[g.backup..g.backup + g.used][16] == 0;
    BackupWrong(v, h, h2, g, 128, Zeros(SECTOR), 17408, 33792, 16);
  }

  lemma SamePrefix(a: seq<Byte>, b: seq<Byte>, z: seq<Byte>)
    requires |a| == |b|
    ensures a + z == b + z <==> a == b
  {
    assert (a + z)[..|a|] == a && (b + z)[..|b|] == b;
  }

  /** Both arrays on the installed device: the used entries as they were, then zeros. */
  lemma BothArrays(v: seq<Byte>, h: seq<Byte>, h2: seq<Byte>, g: Geometry, n: nat, img: seq<Byte>, locA: nat, locB: nat)
    requires |h| == GPT_HEADER && |h2| == GPT_HEADER && Ready(|v|, g, img, locA, locB)
    requires g.entries + g.total <= |v| && g.backup + g.total <= |v|
    ensures var f := BootView(EmbedView(v, h, h2, g, n), img, locA, locB);
            && ArrayBytes(f, g.entries, g.total) == v[g.entries..g.entries + g.used] + Zeros(g.total - g.used)
            && ArrayBytes(f, g.backup, g.total) == v[g.backup..g.backup + g.used] + Zeros(g.total - g.used)
  {
    hide EmbedView, BootView, ClearedView, Fits, Sectors, SizeA, SizeB, Separate, Behind, ArrayBytes;
    var f := BootView(EmbedView(v, h, h2, g, n), img, locA, locB);
    forall x: nat | g.entries <= x < g.entries + g.total ensures f[x] == if x < g.entries + g.used then v[x] else 0 {
      EntryByte(v, h, h2, g, n, img, locA, locB, x);
    }
    forall x: nat | g.backup <= x < g.backup + g.total ensures f[x] == if x < g.backup + g.used then v[x] else 0 {
      EntryByte(v, h, h2, g, n, img, locA, locB, x);
    }
    UsedThenZeros(v, f, g.entries, g.used, g.total);
    UsedThenZeros(v, f, g.backup, g.used, g.total);
  }

  lemma EntryByte(v: seq<Byte>, h: seq<Byte>, h2: seq<Byte>, g: Geometry, n: nat, img: seq<Byte>, locA: nat, locB: nat,
                  x: nat)
    requires |h| == GPT_HEADER && |h2| == GPT_HEADER && Ready(|v|, g, img, locA, locB) && x < |v|
    ensures var f := BootView(EmbedView(v, h, h2, g, n), img, locA, locB);
            && (g.entries <= x < g.entries + g.total ==> f[x] == if x < g.entries + g.used then v[x] else 0)
            && (g.backup <= x < g.backup + g.total ==> f[x] == if x < g.backup + g.used then v[x] else 0)
  {
    hide EmbedView, BootView, ClearedView, Fits, Sectors, SizeA, SizeB;
    if g.entries <= x < g.entries + g.total || g.backup <= x < g.backup + g.total {
      ArraySurvives(v, h, h2, g, n, img, locA, locB, x);
    }
  }

  lemma UsedThenZeros(v: seq<Byte>, f: seq<Byte>, base: nat, used: nat, total: nat)
    requires |f| == |v| && used <= total && base + total <= |v|
    requires forall x: nat | base <= x < base + total :: f[x] == if x < base + used then v[x] else 0
    ensures ArrayBytes(f, base, total) == v[base..base + used] + Zeros(total - used)
  {
  }

  lemma ArrayUnchanged(v: seq<Byte>, h: seq<Byte>, h2: seq<Byte>, g: Geometry, n: nat, img: seq<Byte>, locA: nat,
                       locB: nat)
    requires |h| == GPT_HEADER && |h2| == GPT_HEADER && Ready(|v|, g, img, locA, locB)
    ensures ArrayBytes(BootView(EmbedView(v, h, h2, g, n), img, locA, locB), g.entries, g.total) ==
              ArrayBytes(ClearedView(v, g), g.entries, g.total)
  {
    hide BootView, EmbedView, ClearedView, Separate, Behind, Fits, ArrayBytes, Sectors, SizeA, SizeB;
    var f := BootView(EmbedView(v, h, h2, g, n), img, locA, locB);
    var v1 := ClearedView(v, g);
    forall x: nat | x < |v| && g.entries <= x < g.entries + g.total ensures f[x] == v1[x] {
      ArraySurvives(v, h, h2, g, n, img, locA, locB, x);
    }
    SameArray(f, v1, g.entries, g.total);
  }

  lemma SameArray(f: seq<Byte>, v: seq<Byte>, base: nat, total: nat)
    requires |f| == |v| && (total > 0 ==> base + total <= |v|)
    requires forall x: nat | x < |v| && base <= x < base + total :: f[x] == v[x]
    ensures ArrayBytes(f, base, total) == ArrayBytes(v, base, total)
  {
  }

  lemma HeadersUnchanged(v: seq<Byte>, h: seq<Byte>, h2: seq<Byte>, g: Geometry, n: nat, img: seq<Byte>, locA: nat,
                         locB: nat)
    requires |h| == GPT_HEADER && |h2| == GPT_HEADER && Ready(|v|, g, img, locA, locB)
    ensures var f := BootView(EmbedView(v, h, h2, g, n), img, locA, locB);
            && f[g.lb..g.lb + GPT_HEADER] == NewHeader(h, n, ArraySum(v, g))
            && f[g.alternate..g.alternate + GPT_HEADER] == NewHeader(h2, n, ArraySum(v, g))
  {
    var crc := ArraySum(v, g);
    StagesKeepHeaders(ClearedView(v, g), g, NewHeader(h, n, crc), NewHeader(h2, n, crc), img, locA, locB);
    hide BootView, ClearedView, HeadersView, NewHeader, ArraySum, Ready;
  }

  lemma StagesKeepHeaders(v: seq<Byte>, g: Geometry, p: seq<Byte>, s: seq<Byte>, img: seq<Byte>, locA: nat, locB: nat)
    requires |p| == GPT_HEADER && |s| == GPT_HEADER && Ready(|v|, g, img, locA, locB)
    ensures var f := BootView(HeadersView(v, g, p, s), img, locA, locB);
            f[g.lb..g.lb + GPT_HEADER] == p && f[g.alternate..g.alternate + GPT_HEADER] == s
  {
    hide BootView, HeadersView, Behind, Fits, Sectors, SizeA, SizeB;
    var f := BootView(HeadersView(v, g, p, s), img, locA, locB);
    forall x: nat | g.lb <= x < g.lb + GPT_HEADER ensures f[x] == p[x - g.lb] {
      StagesElsewhere(HeadersView(v, g, p, s), g, img, locA, locB, x);
      HeadersAt(v, g, p, s, x);
    }
    forall x: nat | g.alternate <= x < g.alternate + GPT_HEADER ensures f[x] == s[x - g.alternate] {
      StagesElsewhere(HeadersView(v, g, p, s), g, img, locA, locB, x);
      HeadersAt(v, g, p, s, x);
    }
  }

  /** f is the device v after embedding and install, with n entries left and the last used one known. */
  ghost predicate InstalledGpt(v: seq<Byte>, f: seq<Byte>, h: seq<Byte>, h2: seq<Byte>, lb: nat, img: seq<Byte>,
                               n: nat, last: int)
    requires Embeddable(h, h2, lb) && SECTOR <= |img|
  {
    var a, b := SizeA(|img| - SECTOR), SizeB(|img| - SECTOR);
    var locA, locB := Place(EntryLba(h), lb, a), Place(EntryLba(h2), lb, b);
    && -1 <= last < n <= 1024 && IsLast(v, EntryLba(h) * lb, EntryCount(h), last)
    && a <= 32 * lb && n == BlocksLeft(lb, a) * (lb / ENTRY)
    && var g := GeometryOf(h, h2, lb, n, last);
    && EmbedFits(|v|, g) && Fits(|v|, img, locA, locB) && Behind(g, locA, a, locB, b)
    && f == BootView(EmbedView(v, h, h2, g, n), img, locA, locB)
  }

  /** Arrays, headers and a stage 2 of at most 254 sectors lie within the whole blocks of the device. */
  ghost predicate CanHold(device: Device, h: seq<Byte>, h2: seq<Byte>, lb: nat, img: seq<Byte>)
    requires device.blockSize > 0 && |h| == GPT_HEADER && |h2| == GPT_HEADER && SECTOR <= |img|
    reads device
  {
    OnDevice(Whole(device.disk.Length, device.blockSize), h, h2, lb) && Sectors(|img| - SECTOR) <= 254
  }

  /** The install with GPT embedding, from the two headers that main has read: embed, write stage 2, flush. */
  method InstallGpt(device: Device, h: seq<Byte>, h2: seq<Byte>, lb: nat, img: seq<Byte>) returns (r: Embedding)
    requires device.Valid() && Embeddable(h, h2, lb) && SECTOR <= |img| && SizeA(|img| - SECTOR) <= |img| - SECTOR
    requires SizeB(|img| - SECTOR) <= SizeA(|img| - SECTOR) <= 32 * lb
    modifies device`cachedBlock, device`dirty, device.cache, device.disk
    ensures r.TooManyUsed? ==>
              && device.Valid() && device.View() == old(device.View())
              && TooFull(device.View(), h, lb, SizeA(|img| - SECTOR))
    ensures r.Embedded? ==> device.Valid() && device.View() == device.disk[..]
    ensures r.Embedded? ==> InstalledGpt(old(device.View()), device.disk[..], h, h2, lb, img, r.n, r.last)
    ensures !device.faulty && CanHold(device, h, h2, lb, img) ==> !r.Broken?
  {
    assert device.blockSize > 0;
    HeaderSizes(h, h2, lb);
    hide Whole, Sectors, OnDevice, Embeddable, GeometryOf, EntryLba, EntryCount, InstalledGpt, EmbedView, EmbedFits;
    hide BootView;
    hide Device.View, Device.Valid, IsLast, Place, BlocksLeft, WordAt, SizeA, SizeB, Fits, Behind, TooFull;
    ghost var view := device.View();
    var a, b := SizeA(|img| - SECTOR), SizeB(|img| - SECTOR);
    var locA, locB;
    r, locA, locB := Embed(device, h, h2, lb, a, b);
    if r.Embedded? {
      ghost var mid := device.View();
      HalvesBehind(h, h2, lb, a, b, r.last);
      FewEntries(h, h2, lb, a, b);
      var ok := Finish(device, h, h2, lb, r.n, r.last, img, locA, locB);
      if ok {
        InstalledFrom(view, mid, device.disk[..], h, h2, lb, img, r.n, r.last);
      } else {
        r := Broken;
      }
    }
  }

  /** The writes of stage 2 at the places that Embed computed. */
  method Finish(device: Device, ghost h: seq<Byte>, ghost h2: seq<Byte>, ghost lb: nat, ghost n: nat, ghost last: int,
                img: seq<Byte>, locA: nat, locB: nat) returns (ok: bool)
    requires device.Valid() && Embeddable(h, h2, lb) && -1 <= last && SECTOR <= |img|
    requires SizeA(|img| - SECTOR) <= |img| - SECTOR
    requires Behind(GeometryOf(h, h2, lb, n, last), locA, SizeA(|img| - SECTOR), locB, SizeB(|img| - SECTOR))
    modifies device`cachedBlock, device`dirty, device.cache, device.disk
    ensures ok ==> device.Valid() && device.View() == device.disk[..]
    ensures ok ==>
              Fits(device.disk.Length, img, locA, locB)
              && device.disk[..] == BootView(old(device.View()), img, locA, locB)
    ensures !device.faulty && CanHold(device, h, h2, lb, img) ==> ok
  {
    assert device.blockSize > 0;
    hide Whole, Sectors, OnDevice, Embeddable, GeometryOf, BootView, Device.View, Device.Valid, SizeA, SizeB, Fits;
    hide Behind;
    if OnDevice(Whole(device.disk.Length, device.blockSize), h, h2, lb) && Sectors(|img| - SECTOR) <= 254 {
      StagesFitOn(Whole(device.disk.Length, device.blockSize), h, h2, lb, n, last, img, locA, locB);
    }
    ok := WriteAll(device, img, locA, locB);
  }

  lemma InstalledFrom(v: seq<Byte>, mid: seq<Byte>, f: seq<Byte>, h: seq<Byte>, h2: seq<Byte>, lb: nat, img: seq<Byte>,
                      n: nat, last: int)
    requires Embeddable(h, h2, lb) && SECTOR <= |img| && -1 <= last < n <= 1024
    requires IsLast(v, EntryLba(h) * lb, EntryCount(h), last) && SizeA(|img| - SECTOR) <= 32 * lb
    requires n == BlocksLeft(lb, SizeA(|img| - SECTOR)) * (lb / ENTRY)
    requires EmbedFits(|v|, GeometryOf(h, h2, lb, n, last))
    requires mid == EmbedView(v, h, h2, GeometryOf(h, h2, lb, n, last), n)
    requires var a, b := SizeA(|img| - SECTOR), SizeB(|img| - SECTOR);
             var locA, locB := Place(EntryLba(h), lb, a), Place(EntryLba(h2), lb, b);
             && Fits(|mid|, img, locA, locB) && Behind(GeometryOf(h, h2, lb, n, last), locA, a, locB, b)
             && f == BootView(mid, img, locA, locB)
    ensures InstalledGpt(v, f, h, h2, lb, img, n, last)
  {
    hide EmbedView, EmbedFits, BootView, IsLast, Place, WordAt, SizeA, SizeB, Fits, Behind, EntryLba, EntryCount;
    hide GeometryOf, BlocksLeft;
  }

  lemma HeaderSizes(h: seq<Byte>, h2: seq<Byte>, lb: nat)
    requires Embeddable(h, h2, lb)
    ensures |h| == GPT_HEADER && |h2| == GPT_HEADER && lb > 0
  {
  }

  lemma FewEntries(h: seq<Byte>, h2: seq<Byte>, lb: nat, a: nat, b: nat)
    requires Embeddable(h, h2, lb) && b <= a <= 32 * lb
    ensures BlocksLeft(lb, a) * (lb / ENTRY) <= 1024
  {
    hide WordAt, Place, BlocksLeft;
    ArraysFit(EntryLba(h), EntryLba(h2), lb, a, b);
  }

  lemma StagesFitOn(size: nat, h: seq<Byte>, h2: seq<Byte>, lb: nat, n: nat, last: int, img: seq<Byte>, locA: nat,
                    locB: nat)
    requires Embeddable(h, h2, lb) && -1 <= last && OnDevice(size, h, h2, lb) && SECTOR <= |img|
    requires SizeA(|img| - SECTOR) <= |img| - SECTOR
    requires Sectors(|img| - SECTOR) <= 254
    requires Behind(GeometryOf(h, h2, lb, n, last), locA, SizeA(|img| - SECTOR), locB, SizeB(|img| - SECTOR))
    ensures Fits(size, img, locA, locB)
  {
    hide WordAt, SizeA, SizeB, Sectors;
    SizesCover(|img| - SECTOR);
  }

  // ----- main without --force-mbr ------------------------------------------------------------------------

  /** How an install ends; Beyond are headers and images whose arithmetic the model leaves out. */
  datatype Result =
    | MbrDone
    | MbrRefused
    | GptDone(n: nat, last: int)
    | GptFull
    | BackupInvalid
    | Beyond
    | Failure

  /** The logical block size at which a GPT header lies, or 0. */
  function GptBlock(v: seq<Byte>): nat {
    if 512 + GPT_HEADER <= |v| && v[512..520] == EFI_PART then 512
    else if 4096 + GPT_HEADER <= |v| && v[4096..4104] == EFI_PART then 4096
    else 0
  }

  /** A header of 96 bytes at the address, or nothing where the device ends before. */
  function HeaderIn(v: seq<Byte>, at: nat): seq<Byte> {
    if at + GPT_HEADER <= |v| then v[at..at + GPT_HEADER] else []
  }

  /** The primary header on a device with GPT. */
  function Primary(v: seq<Byte>): seq<Byte> {
    HeaderIn(v, GptBlock(v))
  }

  /** The backup header that the primary one names. */
  function Backup(v: seq<Byte>): seq<Byte> {
    if |Primary(v)| == GPT_HEADER then HeaderIn(v, GptBlock(v) * AlternateLba(Primary(v)) % WORD) else []
  }

  predicate Signed(h: seq<Byte>) {
    |h| == GPT_HEADER && h[..8] == EFI_PART
  }

  /** The model covers the embedding: see Embeddable, and both halves fit in front of the array's end. */
  predicate Covered(h: seq<Byte>, h2: seq<Byte>, lb: nat, img: seq<Byte>) {
    && Embeddable(h, h2, lb) && SECTOR <= |img|
    && SizeB(|img| - SECTOR) <= SizeA(|img| - SECTOR) <= 32 * lb
  }

  /** Both headers are there and signed. */
  predicate HasGpt(v: seq<Byte>) {
    GptBlock(v) != 0 && Signed(Primary(v)) && Signed(Backup(v))
  }

  /** What each end of an install says about the device v before it and f after it. */
  ghost predicate Explains(r: Result, v: seq<Byte>, f: seq<Byte>, img: seq<Byte>)
    requires SECTOR <= |img|
  {
    match r
    case MbrDone => GptBlock(v) == 0 && 1082 <= |v| && SaneWords(v) && SanePartitions(v) && InstalledMbr(v, f, img)
    case MbrRefused => GptBlock(v) == 0 && 1082 <= |v| && !(SaneWords(v) && SanePartitions(v)) && f == v
    case GptDone(n, last) =>
      && HasGpt(v) && Covered(Primary(v), Backup(v), GptBlock(v), img)
      && InstalledGpt(v, f, Primary(v), Backup(v), GptBlock(v), img, n, last)
    case GptFull =>
      && HasGpt(v) && Covered(Primary(v), Backup(v), GptBlock(v), img) && f == v
      && TooFull(v, Primary(v), GptBlock(v), SizeA(|img| - SECTOR))
    case BackupInvalid => GptBlock(v) != 0 && !Signed(Backup(v)) && f == v
    case Beyond => HasGpt(v) && !Covered(Primary(v), Backup(v), GptBlock(v), img) && f == v
    case Failure => true
  }

  /** Address x lies in the first len bytes of one of the two arrays. */
  predicate InArrays(g: Geometry, len: nat, x: nat) {
    g.entries <= x < g.entries + len || g.backup <= x < g.backup + len
  }

  /**
   What main leaves on a device with GPT whose structures do not overlap, for a
   stage 2 of at most 254 sectors: every partition entry in use is still there, both
   shrunk arrays are as before up to the last used entry and zero behind it, and both
   headers are sound and record the new count and the checksum of the primary array.
   */
  lemma GptDoneSound(v: seq<Byte>, f: seq<Byte>, img: seq<Byte>, n: nat, last: int, g: Geometry)
    requires SECTOR <= |img| && Sectors(|img| - SECTOR) <= 254 && Explains(GptDone(n, last), v, f, img)
    requires -1 <= last && g == GeometryOf(Primary(v), Backup(v), GptBlock(v), n, last) && Separate(g)
    ensures |f| == |v| && last < n <= 1024 && (n > 0 ==> g.entries + g.total <= |v|)
    ensures forall j: nat | j < EntryCount(Primary(v)) && EntryUsed(v, g.entries, j) ::
              j <= last && EntryAt(f, g.entries, j) == EntryAt(v, g.entries, j)
    ensures forall x: nat | x < |v| && InArrays(g, g.total, x) :: f[x] == if InArrays(g, g.used, x) then v[x] else 0
    ensures RecordsAt(f, g.lb, n, Checksum(ArrayBytes(f, g.entries, g.total)))
    ensures RecordsAt(f, g.alternate, n, Checksum(ArrayBytes(f, g.entries, g.total)))
  {
    hide EmbedView, BootView, WordAt, Place, SizeA, SizeB, Fits, Behind, Separate, Sectors, ClearedView, GptBlock;
    hide Checksum, RecordsAt, ArrayBytes, InUse;
    var h, h2, lb := Primary(v), Backup(v), GptBlock(v);
    var locA := Place(EntryLba(h), lb, SizeA(|img| - SECTOR));
    var locB := Place(EntryLba(h2), lb, SizeB(|img| - SECTOR));
    assert Ready(|v|, g, img, locA, locB) && g.total == n * ENTRY;
    ChecksumsSound(v, h, h2, g, n, img, locA, locB);
    forall x: nat | x < |v| && InArrays(g, g.total, x) ensures f[x] == if InArrays(g, g.used, x) then v[x] else 0 {
      ArraySurvives(v, h, h2, g, n, img, locA, locB, x);
    }
    forall j: nat | j < EntryCount(h) && EntryUsed(v, g.entries, j)
      ensures j <= last && EntryAt(f, g.entries, j) == EntryAt(v, g.entries, j) {
      EntryKept(v, f, g, j, last);
    }
  }

  lemma EntryKept(v: seq<Byte>, f: seq<Byte>, g: Geometry, j: nat, last: int)
    requires |f| == |v| && j <= last && g.used == (last + 1) * ENTRY <= g.total
    requires forall x: nat | x < |v| && InArrays(g, g.total, x) :: f[x] == if InArrays(g, g.used, x) then v[x] else 0
    ensures EntryAt(f, g.entries, j) == EntryAt(v, g.entries, j)
  {
    var a := g.entries + j * ENTRY;
    if a + ENTRY <= |v| {
      forall x: nat | a <= x < a + ENTRY ensures f[x] == v[x] {
        assert InArrays(g, g.total, x) && InArrays(g, g.used, x);
      }
    }
  }

  /** The probes and the image lie within the whole blocks of the device. */
  predicate EnoughFor(device: Device, img: seq<Byte>)
    requires device.blockSize > 0
    reads device
  {
    device.Readable(0, 4096 + GPT_HEADER) && device.Readable(0, |img|)
  }

  /** On a device with GPT the backup header can be read, and if it is signed, all that is written fits. */
  ghost predicate EnoughForGpt(device: Device, v: seq<Byte>, img: seq<Byte>)
    requires device.blockSize > 0 && SECTOR <= |img|
    reads device
  {
    && Signed(Primary(v)) && device.Readable(GptBlock(v) * AlternateLba(Primary(v)) % WORD, GPT_HEADER)
    && (Signed(Backup(v)) ==> CanHold(device, Primary(v), Backup(v), GptBlock(v), img))
  }

  /** main without --force-mbr and without a partition number. */
  method Install(device: Device, img: seq<Byte>) returns (r: Result)
    requires device.Valid() && SECTOR <= |img| && SizeA(|img| - SECTOR) <= |img| - SECTOR
    modifies device`cachedBlock, device`dirty, device.cache, device.disk
    ensures !r.Failure? ==> device.Valid() && Explains(r, old(device.View()), device.View(), img)
    ensures r.MbrDone? || r.GptDone? ==> device.disk[..] == device.View()
    ensures !device.faulty && EnoughFor(device, img)
            && (GptBlock(old(device.View())) == 0 || EnoughForGpt(device, old(device.View()), img)) ==>
              !r.Failure?
  {
    hide Device.View, Device.Valid, Whole, SizeA, Explains, GptBlock, NoGpt;
    ghost var view := device.View();
    var ok, lb, h := Probe(device);
    if !ok {
      return Failure;
    }
    ProbedBlock(view, lb, h);
    if lb == 0 {
      r := WithoutGpt(device, img);
    } else {
      r := WithGpt(device, h, lb, img);
    }
  }

  /** What the probe found is the primary header. */
  lemma ProbedBlock(v: seq<Byte>, lb: nat, h: seq<Byte>)
    requires lb == 0 ==> 4096 + GPT_HEADER <= |v| && NoGpt(v)
    requires lb != 0 ==>
               && (lb == 512 || lb == 4096) && lb + GPT_HEADER <= |v| && v[lb..lb + 8] == EFI_PART
               && h == v[lb..lb + GPT_HEADER] && (lb == 4096 ==> v[512..520] != EFI_PART)
    ensures GptBlock(v) == lb && (lb != 0 ==> Primary(v) == h && Signed(h))
  {
    if lb != 0 {
      assert h[..8] == v[lb..lb + 8];
    }
  }

  method WithoutGpt(device: Device, img: seq<Byte>) returns (r: Result)
    requires device.Valid() && SECTOR <= |img| && SizeA(|img| - SECTOR) <= |img| - SECTOR
    requires GptBlock(device.View()) == 0
    modifies device`cachedBlock, device`dirty, device.cache, device.disk
    ensures r.MbrDone? || r.MbrRefused? || r.Failure?
    ensures !r.Failure? ==> device.Valid() && Explains(r, old(device.View()), device.View(), img)
    ensures r.MbrDone? ==> device.disk[..] == device.View()
    ensures !device.faulty && device.Readable(0, 1082) && device.Readable(0, |img|) ==> !r.Failure?
  {
    hide Device.View, Device.Valid, Whole, SizeA, GptBlock, SaneWords, SanePartitions, InstalledMbr;
    var outcome := MbrPath(device, img);
    r := match outcome
      case Installed => MbrDone
      case Refused => MbrRefused
      case _ => Failure;
  }

  /** The path of main for a device with GPT: the backup header, its signature, and the embedding. */
  method WithGpt(device: Device, h: seq<Byte>, lb: nat, img: seq<Byte>) returns (r: Result)
    requires device.Valid() && SECTOR <= |img| && SizeA(|img| - SECTOR) <= |img| - SECTOR
    requires lb != 0 && GptBlock(device.View()) == lb && Primary(device.View()) == h && Signed(h)
    modifies device`cachedBlock, device`dirty, device.cache, device.disk
    ensures !r.MbrDone? && !r.MbrRefused?
    ensures !r.Failure? ==> device.Valid() && Explains(r, old(device.View()), device.View(), img)
    ensures r.GptDone? ==> device.disk[..] == device.View()
    ensures !device.faulty && EnoughForGpt(device, old(device.View()), img) ==> !r.Failure?
  {
    hide Device.View, Device.Valid, Whole, SizeA, SizeB, GptBlock, InstalledGpt, Embeddable, AlternateLba, OnDevice;
    hide Sectors;
    hide TooFull;
    var ok, h2 := device.Read(lb * AlternateLba(h) % WORD, GPT_HEADER);
    if !ok {
      return Failure;
    }
    if h2[..8] != EFI_PART {
      return BackupInvalid;
    }
    if !Covered(h, h2, lb, img) {
      return Beyond;
    }
    var e := InstallGpt(device, h, h2, lb, img);
    r := match e
      case Embedded(n, last) => GptDone(n, last)
      case TooManyUsed => GptFull
      case Broken => Failure;
  }
}
