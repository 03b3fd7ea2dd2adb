/** The tables of section 5.3 of the UEFI Specification: where their fields lie, and what an install makes of them. */
module GptHeaders {
  import opened Bits
  import opened Words
  import opened DiskCache
  import opened Installer
  import opened GptEmbedding

  // ----- The header, field by field -----------------------------------------------------------

  datatype Fields = Fields(revision: nat, size: nat, crc: nat, reserved: nat, myLba: nat, alternateLba: nat,
                           firstUsable: nat, lastUsable: nat, guid: seq<Byte>, entryLba: nat, entryCount: nat,
                           entrySize: nat, arrayCrc: nat)

  predicate Narrow(f: Fields) {
    && f.revision < 0x1_0000_0000 && f.size < 0x1_0000_0000 && f.crc < 0x1_0000_0000 && f.reserved < 0x1_0000_0000
    && f.myLba < WORD && f.alternateLba < WORD && f.firstUsable < WORD && f.lastUsable < WORD && |f.guid| == 16
    && f.entryLba < WORD && f.entryCount < 0x1_0000_0000 && f.entrySize < 0x1_0000_0000
    && f.arrayCrc < 0x1_0000_0000
  }

  /** The text of a byte string. */
  function Text(s: string): seq<Byte>
    requires forall i | 0 <= i < |s| :: s[i] < 128 as char
  {
    seq(|s|, i requires 0 <= i < |s| => s[i] as int)
  }

  /** Signature, revision and header size. */
  function Opening(f: Fields): (r: seq<Byte>)
    ensures |r| == 16
  {
    Text("EFI PART") + Little(f.revision, 4) + Little(f.size, 4)
  }

  /** From the reserved word to the place of the entries. */
  function Middle(f: Fields): (r: seq<Byte>)
    requires |f.guid| == 16
    ensures |r| == 60
  {
    Little(f.reserved, 4) + Little(f.myLba, 8) + Little(f.alternateLba, 8) + Little(f.firstUsable, 8)
    + Little(f.lastUsable, 8) + f.guid + Little(f.entryLba, 8)
  }

  /** The 92 bytes of the header in their order, and the four bytes behind them that are written with them. */
  function Encoded(f: Fields, rest: seq<Byte>): (r: seq<Byte>)
    requires |f.guid| == 16 && |rest| == 4
    ensures |r| == GPT_HEADER
  {
    Opening(f) + Little(f.crc, 4) + Middle(f) + Little(f.entryCount, 4) + Little(f.entrySize, 4)
    + Little(f.arrayCrc, 4) + rest
  }

  lemma Signature(f: Fields, rest: seq<Byte>)
    requires |f.guid| == 16 && |rest| == 4
    ensures EFI_PART == Text("EFI PART") && Signed(Encoded(f, rest))
    ensures ECH_FS == Text("_ECH_FS_") && FAT == Text("FAT")
  {
    hide Little, Middle;
    assert EFI_PART == Text("EFI PART");
    assert Encoded(f, rest)[..8] == EFI_PART;
  }

  /** A field reads back where the bytes before it end. */
  lemma FieldAt(before: seq<Byte>, n: nat, k: nat, behind: seq<Byte>)
    requires n < Pow2(8 * k)
    ensures WordAt(before + Little(n, k) + behind, |before|, k) == n
  {
    hide Little, Value, Pow2;
    var m := before + Little(n, k) + behind;
    assert m[|before|..|before| + k] == Little(n, k);
    ValueLittle(n, k);
  }

  /** A field inside the middle part. */
  lemma MiddleAt(before: seq<Byte>, b: seq<Byte>, behind: seq<Byte>, i: nat, k: nat)
    requires i + k <= |b|
    ensures WordAt(before + b + behind, |before| + i, k) == WordAt(b, i, k)
  {
    hide Value;
    assert (before + b + behind)[|before| + i..|before| + i + k] == b[i..i + k];
  }

  lemma Widths()
    ensures Pow2(8 * 4) == 0x1_0000_0000 && Pow2(8 * 8) == WORD
  {
    Pow2Word();
    Pow2Large();
  }

  /** The accessors of the installer read the fields of the header. */
  lemma HeaderFields(f: Fields, rest: seq<Byte>)
    requires Narrow(f) && |rest| == 4
    ensures var h := Encoded(f, rest);
            && EntryLba(h) == f.entryLba && AlternateLba(h) == f.alternateLba && EntryCount(h) == f.entryCount
            && WordAt(h, 16, 4) == f.crc && WordAt(h, 84, 4) == f.entrySize && WordAt(h, 88, 4) == f.arrayCrc
  {
    hide Little, Value, Pow2, Opening, Middle;
    Widths();
    var a, b := Opening(f), Middle(f);
    var crc, count := Little(f.crc, 4), Little(f.entryCount, 4);
    var size, sum := Little(f.entrySize, 4), Little(f.arrayCrc, 4);
    var h := Encoded(f, rest);
    assert h == a + crc + (b + count + size + sum + rest);
    FieldAt(a, f.crc, 4, b + count + size + sum + rest);
    assert h == a + crc + b + (count + size + sum + rest);
    MiddleAt(a + crc, b, count + size + sum + rest, 12, 8);
    MiddleAt(a + crc, b, count + size + sum + rest, 52, 8);
    MiddleFields(f);
    assert h == a + crc + b + count + (size + sum + rest);
    FieldAt(a + crc + b, f.entryCount, 4, size + sum + rest);
    assert h == a + crc + b + count + size + (sum + rest);
    FieldAt(a + crc + b + count, f.entrySize, 4, sum + rest);
    FieldAt(a + crc + b + count + size, f.arrayCrc, 4, rest);
  }

  lemma MiddleFields(f: Fields)
    requires Narrow(f)
    ensures WordAt(Middle(f), 12, 8) == f.alternateLba && WordAt(Middle(f), 52, 8) == f.entryLba
  {
    hide Little, Value, Pow2;
    Widths();
    var a := Little(f.reserved, 4) + Little(f.myLba, 8);
    var b := Little(f.firstUsable, 8) + Little(f.lastUsable, 8) + f.guid;
    var alternate, entries := Little(f.alternateLba, 8), Little(f.entryLba, 8);
    assert Middle(f) == a + alternate + (b + entries);
    FieldAt(a, f.alternateLba, 8, b + entries);
    assert Middle(f) == a + alternate + b + entries + [];
    FieldAt(a + alternate + b, f.entryLba, 8, []);
  }

  // ----- The rewritten header -------------------------------------------------------------------

  lemma PutAt(before: seq<Byte>, was: seq<Byte>, now: seq<Byte>, behind: seq<Byte>)
    requires |now| == |was|
    ensures Put(before + was + behind, |before|, now) == before + now + behind
  {
    var m := before + was + behind;
    assert m[..|before|] == before && m[|before| + |now|..] == behind;
  }

  lemma PutCrc(f: Fields, rest: seq<Byte>, n: nat)
    requires |f.guid| == 16 && |rest| == 4
    ensures Put(Encoded(f, rest), 16, Little(n, 4)) == Encoded(f.(crc := n), rest)
  {
    hide Little, Opening, Middle, Put;
    SameParts(f, f.(crc := n));
    var behind := Middle(f) + Little(f.entryCount, 4) + Little(f.entrySize, 4) + Little(f.arrayCrc, 4) + rest;
    assert Encoded(f, rest) == Opening(f) + Little(f.crc, 4) + behind;
    assert Encoded(f.(crc := n), rest) == Opening(f) + Little(n, 4) + behind;
    PutAt(Opening(f), Little(f.crc, 4), Little(n, 4), behind);
  }

  lemma PutCount(f: Fields, rest: seq<Byte>, n: nat)
    requires |f.guid| == 16 && |rest| == 4
    ensures Put(Encoded(f, rest), 80, Little(n, 4)) == Encoded(f.(entryCount := n), rest)
  {
    hide Little, Opening, Middle, Put;
    SameParts(f, f.(entryCount := n));
    var before := Opening(f) + Little(f.crc, 4) + Middle(f);
    var behind := Little(f.entrySize, 4) + Little(f.arrayCrc, 4) + rest;
    assert Encoded(f, rest) == before + Little(f.entryCount, 4) + behind;
    assert Encoded(f.(entryCount := n), rest) == before + Little(n, 4) + behind;
    PutAt(before, Little(f.entryCount, 4), Little(n, 4), behind);
  }

  lemma PutArrayCrc(f: Fields, rest: seq<Byte>, n: nat)
    requires |f.guid| == 16 && |rest| == 4
    ensures Put(Encoded(f, rest), 88, Little(n, 4)) == Encoded(f.(arrayCrc := n), rest)
  {
    hide Little, Opening, Middle, Put;
    SameParts(f, f.(arrayCrc := n));
    var before := Opening(f) + Little(f.crc, 4) + Middle(f) + Little(f.entryCount, 4) + Little(f.entrySize, 4);
    assert Encoded(f, rest) == before + Little(f.arrayCrc, 4) + rest;
    assert Encoded(f.(arrayCrc := n), rest) == before + Little(n, 4) + rest;
    PutAt(before, Little(f.arrayCrc, 4), Little(n, 4), rest);
  }

  /** Neither part holds the checksums or the count. */
  lemma SameParts(f: Fields, g: Fields)
    requires |f.guid| == 16 && g == f.(crc := g.crc, entryCount := g.entryCount, arrayCrc := g.arrayCrc)
    ensures Opening(g) == Opening(f) && Middle(g) == Middle(f)
  {
    hide Little;
  }

  /** A header with count n and array checksum sum, and its own checksum over 92 bytes with that field zero. */
  function Updated(f: Fields, rest: seq<Byte>, n: nat, sum: nat): Fields
    requires |f.guid| == 16 && |rest| == 4
  {
    var g := f.(entryCount := n, arrayCrc := sum, crc := 0);
    g.(crc := Checksum(Encoded(g, rest)[..92]))
  }

  /** The installer changes these three fields and no other. */
  lemma NewHeaderFields(f: Fields, rest: seq<Byte>, n: nat, sum: nat)
    requires |f.guid| == 16 && |rest| == 4
    ensures NewHeader(Encoded(f, rest), n, sum) == Encoded(Updated(f, rest, n, sum), rest)
  {
    hide Little, Encoded, Checksum, Put;
    PutArrayCrc(f, rest, sum);
    PutCount(f.(arrayCrc := sum), rest, n);
    PutCrc(f.(arrayCrc := sum, entryCount := n), rest, 0);
    var g := f.(arrayCrc := sum, entryCount := n, crc := 0);
    PutCrc(g, rest, Checksum(Encoded(g, rest)[..92]));
  }

  // ----- Entries ------------------------------------------------------------------------------------

  /** An entry: type GUID, partition GUID, first and last block, attributes, name. */
  function EncodedEntry(kind: seq<Byte>, guid: seq<Byte>, first: nat, last: nat, attributes: nat, name: seq<Byte>)
    : (r: seq<Byte>)
    requires |kind| == 16 && |guid| == 16 && |name| == 72
    ensures |r| == ENTRY
  {
    kind + guid + Little(first, 8) + Little(last, 8) + Little(attributes, 8) + name
  }

  /** An entry counts as used exactly when its partition GUID is not zero. */
  lemma InUseMeaning(kind: seq<Byte>, guid: seq<Byte>, first: nat, last: nat, attributes: nat, name: seq<Byte>)
    requires |kind| == 16 && |guid| == 16 && |name| == 72
    ensures InUse(EncodedEntry(kind, guid, first, last, attributes, name)) <==> exists k :: 0 <= k < 16 && guid[k] != 0
  {
    hide Little, Value;
    var e := EncodedEntry(kind, guid, first, last, attributes, name);
    assert e[16..24] == guid[..8] && e[24..32] == guid[8..];
    ValueZero(guid[..8]);
    ValueZero(guid[8..]);
    assert guid == guid[..8] + guid[8..];
  }

  // ----- The whole install ---------------------------------------------------------------------------

  /** Where the structures lie, by the fields of the primary header p and the backup header s. */
  function Places(lb: nat, p: Fields, s: Fields, n: nat, last: int): Geometry
    requires -1 <= last
  {
    Geometry(lb, p.entryLba * lb, s.entryLba * lb, lb * p.alternateLba, (last + 1) * 128, n * 128)
  }

  lemma PlacesRead(lb: nat, p: Fields, s: Fields, pr: seq<Byte>, sr: seq<Byte>, n: nat, last: int)
    requires Narrow(p) && Narrow(s) && |pr| == 4 && |sr| == 4 && -1 <= last
    ensures GeometryOf(Encoded(p, pr), Encoded(s, sr), lb, n, last) == Places(lb, p, s, n, last)
    ensures EntryCount(Encoded(p, pr)) == p.entryCount
  {
    hide Encoded, Narrow, WordAt;
    HeaderFields(p, pr);
    HeaderFields(s, sr);
  }

  /** Both shrunk arrays: as before up to the last used entry, zero behind it. */
  ghost predicate ArraysKept(v: seq<Byte>, f: seq<Byte>, g: Geometry) {
    && |f| == |v|
    && forall x: nat | x < |v| && InArrays(g, g.total, x) :: f[x] == if InArrays(g, g.used, x) then v[x] else 0
  }

  /** Both headers with count n, the checksum of the primary array on the device, and their own checksum. */
  ghost predicate HeadersUpdated(f: seq<Byte>, g: Geometry, p: Fields, s: Fields, pr: seq<Byte>, sr: seq<Byte>, n: nat)
    requires |p.guid| == 16 && |s.guid| == 16 && |pr| == 4 && |sr| == 4
  {
    && g.lb + GPT_HEADER <= |f| && g.alternate + GPT_HEADER <= |f| && (g.total > 0 ==> g.entries + g.total <= |f|)
    && var sum := Checksum(ArrayBytes(f, g.entries, g.total));
    && f[g.lb..g.lb + GPT_HEADER] == Encoded(Updated(p, pr, n, sum), pr)
    && f[g.alternate..g.alternate + GPT_HEADER] == Encoded(Updated(s, sr, n, sum), sr)
  }

  /**
   main on a device with these two headers, once it is done: the arrays lie where the
   headers say, and last is the highest used entry of those they count; the arrays are
   kept and cut to n entries, and both headers are updated.
   */
  lemma GptDoneFields(v: seq<Byte>, f: seq<Byte>, img: seq<Byte>, n: nat, last: int, p: Fields, s: Fields,
                      pr: seq<Byte>, sr: seq<Byte>, g: Geometry)
    requires SECTOR <= |img| && Sectors(|img| - SECTOR) <= 254 && Explains(GptDone(n, last), v, f, img)
    requires Narrow(p) && Narrow(s) && |pr| == 4 && |sr| == 4 && -1 <= last
    requires Primary(v) == Encoded(p, pr) && Backup(v) == Encoded(s, sr)
    requires g == Places(GptBlock(v), p, s, n, last) && Separate(g)
    ensures last < n == (32 * g.lb - SizeA(|img| - SECTOR)) / g.lb * (g.lb / 128) <= 1024
    ensures IsLast(v, g.entries, p.entryCount, last)
    ensures ArraysKept(v, f, g) && HeadersUpdated(f, g, p, s, pr, sr, n)
  {
    hide Encoded, Checksum, EmbedView, BootView, WordAt, Place, SizeA, SizeB, Fits, Behind, IsLast, Updated;
    hide Separate, Sectors, ClearedView, GptBlock, RecordsAt, ArrayBytes, InUse, NewHeader, HeadersView;
    var h, h2, lb := Primary(v), Backup(v), GptBlock(v);
    PlacesRead(lb, p, s, pr, sr, n, last);
    GptDoneSound(v, f, img, n, last, g);
    var locA := Place(EntryLba(h), lb, SizeA(|img| - SECTOR));
    var locB := Place(EntryLba(h2), lb, SizeB(|img| - SECTOR));
    assert Ready(|v|, g, img, locA, locB);
    HeadersUnchanged(v, h, h2, g, n, img, locA, locB);
    ArrayUnchanged(v, h, h2, g, n, img, locA, locB);
    NewHeaderFields(p, pr, n, ArraySum(v, g));
    NewHeaderFields(s, sr, n, ArraySum(v, g));
  }

  /** Sector 0: time stamp and partition table as before, sizes and places of the halves at 420, the boot image else. */
  ghost predicate BootSector(v: seq<Byte>, f: seq<Byte>, img: seq<Byte>, locA: nat, locB: nat) {
    && SECTOR <= |v| == |f| && SECTOR <= |img|
    && WordAt(f, 420, 2) == SizeA(|img| - SECTOR) && WordAt(f, 422, 2) == SizeB(|img| - SECTOR)
    && WordAt(f, 424, 8) == locA && WordAt(f, 432, 8) == locB
    && forall x: nat | x < SECTOR && !(420 <= x < 440) ::
      f[x] == if 218 <= x < 224 || 440 <= x < 510 then v[x] else img[x]
  }

  lemma BootSectorIs(v: seq<Byte>, w: seq<Byte>, img: seq<Byte>, locA: nat, locB: nat)
    requires |w| == |v| && Fits(|w|, img, locA, locB) && SECTOR <= locA < WORD && SECTOR <= locB < WORD
    requires forall x: nat | x < SECTOR :: w[x] == v[x]
    ensures BootSector(v, BootView(w, img, locA, locB), img, locA, locB)
  {
    hide SizeA, SizeB, Little, Value, StagesView, LocationsView, RestoredView, Locations;
    var a, b := SizeA(|img| - SECTOR), SizeB(|img| - SECTOR);
    var w1 := StagesView(w, img, locA, locB);
    var w2 := LocationsView(w1, a, b, locA, locB);
    var f := BootView(w, img, locA, locB);
    var fields := Locations(a, b, locA, locB);
    forall x: nat | x < SECTOR
      ensures f[x] == if 218 <= x < 224 || 440 <= x < 510 then v[x] else if 420 <= x < 440 then fields[x - 420]
                      else img[x]
    {
      FirstSector(w, img, locA, locB, x);
      LocationsAt(w1, a, b, locA, locB, x);
      RestoredAt(w2, w, x);
    }
    LocationFields(a, b, locA, locB);
    assert f[420..422] == fields[0..2] && f[422..424] == fields[2..4] && f[424..432] == fields[4..12]
           && f[432..440] == fields[12..20];
  }

  lemma FirstSector(w: seq<Byte>, img: seq<Byte>, locA: nat, locB: nat, x: nat)
    requires Fits(|w|, img, locA, locB) && SECTOR <= locA && SECTOR <= locB && x < SECTOR
    ensures StagesView(w, img, locA, locB)[x] == img[x]
  {
    hide SizeA, Overlay;
    var a := SizeA(|img| - SECTOR);
    var v1 := Overlay(w, 0, img[..SECTOR]);
    var v2 := Overlay(v1, locA, img[SECTOR..SECTOR + a]);
    OverlayAt(w, 0, img[..SECTOR], x);
    OverlayAt(v1, locA, img[SECTOR..SECTOR + a], x);
    OverlayAt(v2, locB, img[SECTOR + a..], x);
  }

  /** The first half of stage 2 lies at locA and the rest at locB. */
  ghost predicate StagesAre(f: seq<Byte>, img: seq<Byte>, locA: nat, locB: nat)
    requires SECTOR <= |img|
  {
    var a := SizeA(|img| - SECTOR);
    && SECTOR + a <= |img|
    && (forall x: nat | x < |f| && locA <= x < locA + a :: f[x] == img[SECTOR + (x - locA)])
    && (forall x: nat | x < |f| && locB <= x < locB + (|img| - SECTOR - a) :: f[x] == img[SECTOR + a + (x - locB)])
  }

  lemma StagesWritten(w: seq<Byte>, img: seq<Byte>, locA: nat, locB: nat)
    requires SECTOR <= |img| && Fits(|w|, img, locA, locB) && SECTOR <= locA && SECTOR <= locB
    requires var a := SizeA(|img| - SECTOR);
             locA + a <= locB || locB + (|img| - SECTOR - a) <= locA
    ensures StagesAre(BootView(w, img, locA, locB), img, locA, locB)
  {
    hide BootView, SizeA;
    forall x: nat | SECTOR <= x < |w|
      ensures var a := SizeA(|img| - SECTOR);
              BootView(w, img, locA, locB)[x] ==
              if locB <= x < locB + (|img| - SECTOR - a) then img[SECTOR + a + (x - locB)]
              else if locA <= x < locA + a then img[SECTOR + (x - locA)]
              else w[x]
    {
      BootBehind(w, img, locA, locB, x);
    }
  }

  /** The embedding leaves sector 0 alone. */
  lemma EmbedBehind(v: seq<Byte>, h: seq<Byte>, h2: seq<Byte>, g: Geometry, n: nat, x: nat)
    requires |h| == GPT_HEADER && |h2| == GPT_HEADER && EmbedFits(|v|, g) && Separate(g) && x < SECTOR && x < |v|
    ensures EmbedView(v, h, h2, g, n)[x] == v[x]
  {
    hide ClearedView, HeadersView, NewHeader, ArraySum;
    var sum := ArraySum(v, g);
    HeadersAt(ClearedView(v, g), g, NewHeader(h, n, sum), NewHeader(h2, n, sum), x);
    ClearedAt(v, g, x);
  }

  /** The first half starts right behind the shrunk primary array. */
  lemma FirstPlace(lba: nat, lb: nat, a: nat, n: nat)
    requires (lb == 512 || lb == 4096) && (lba + 32) * lb < WORD && a <= 32 * lb
    requires n == BlocksLeft(lb, a) * (lb / ENTRY)
    ensures Place(lba, lb, a) == lba * lb + n * 128 < WORD
  {
    hide Place, BlocksLeft;
    PlaceFits(lba, lb, a);
    var k := BlocksLeft(lb, a);
    CountBytes(k, lb);
    assert (lba + k) * lb == lba * lb + k * lb;
  }

  /** What the result of main says of the final device, with the places worked out. */
  lemma DoneView(v: seq<Byte>, f: seq<Byte>, img: seq<Byte>, n: nat, last: int, p: Fields, s: Fields, pr: seq<Byte>,
                 sr: seq<Byte>, g: Geometry, locA: nat, locB: nat)
    requires SECTOR <= |img| && Sectors(|img| - SECTOR) <= 254 && Explains(GptDone(n, last), v, f, img)
    requires Narrow(p) && Narrow(s) && |pr| == 4 && |sr| == 4 && -1 <= last
    requires Primary(v) == Encoded(p, pr) && Backup(v) == Encoded(s, sr)
    requires g == Places(GptBlock(v), p, s, n, last) && Separate(g)
    requires SizeB(|img| - SECTOR) <= 32 * g.lb && 0 < g.lb && locA == g.entries + g.total
    requires locB == (s.entryLba + (32 * g.lb - SizeB(|img| - SECTOR)) / g.lb) * g.lb
    ensures |Primary(v)| == GPT_HEADER && |Backup(v)| == GPT_HEADER && EmbedFits(|v|, g) && Fits(|v|, img, locA, locB)
    ensures f == BootView(EmbedView(v, Primary(v), Backup(v), g, n), img, locA, locB)
    ensures Behind(g, locA, SizeA(|img| - SECTOR), locB, SizeB(|img| - SECTOR)) && locA < WORD && locB < WORD
  {
    hide Encoded, EmbedView, BootView, WordAt, Place, SizeA, SizeB, Fits, IsLast, BlocksLeft, EmbedFits, Behind;
    hide Separate, Sectors, GptBlock, InUse;
    var lb := GptBlock(v);
    PlacesRead(lb, p, s, pr, sr, n, last);
    HeaderFields(p, pr);
    HeaderFields(s, sr);
    FirstPlace(p.entryLba, lb, SizeA(|img| - SECTOR), n);
    SecondPlace(s.entryLba, lb, SizeB(|img| - SECTOR));
  }

  /** Stage 2: the first half right behind the shrunk primary array, the second inside the backup's 32 blocks. */
  lemma GptDoneStages(v: seq<Byte>, f: seq<Byte>, img: seq<Byte>, n: nat, last: int, p: Fields, s: Fields,
                      pr: seq<Byte>, sr: seq<Byte>, g: Geometry, locA: nat, locB: nat)
    requires SECTOR <= |img| && Sectors(|img| - SECTOR) <= 254 && Explains(GptDone(n, last), v, f, img)
    requires Narrow(p) && Narrow(s) && |pr| == 4 && |sr| == 4 && -1 <= last
    requires Primary(v) == Encoded(p, pr) && Backup(v) == Encoded(s, sr)
    requires g == Places(GptBlock(v), p, s, n, last) && Separate(g)
    requires SizeB(|img| - SECTOR) <= 32 * g.lb && 0 < g.lb && locA == g.entries + g.total
    requires locB == (s.entryLba + (32 * g.lb - SizeB(|img| - SECTOR)) / g.lb) * g.lb
    ensures BootSector(v, f, img, locA, locB) && StagesAre(f, img, locA, locB)
  {
    hide Encoded, EmbedView, BootView, SizeA, SizeB, Fits, EmbedFits, Explains, Places, Narrow, Behind;
    hide Separate, Sectors, GptBlock, BootSector, StagesAre;
    DoneView(v, f, img, n, last, p, s, pr, sr, g, locA, locB);
    var w := EmbedView(v, Primary(v), Backup(v), g, n);
    FitsSector(|w|, img, locA, locB);
    SizesCover(|img| - SECTOR);
    forall x: nat | x < SECTOR && x < |v| ensures w[x] == v[x] {
      EmbedBehind(v, Primary(v), Backup(v), g, n, x);
    }
    HalvesApart(g, locA, SizeA(|img| - SECTOR), locB, SizeB(|img| - SECTOR));
    BootSectorIs(v, w, img, locA, locB);
    StagesWritten(w, img, locA, locB);
  }

  lemma SecondPlace(lba: nat, lb: nat, b: nat)
    requires (lb == 512 || lb == 4096) && (lba + 32) * lb < WORD && b <= 32 * lb
    ensures Place(lba, lb, b) == (lba + (32 * lb - b) / lb) * lb < WORD
  {
    hide Place;
    PlaceFits(lba, lb, b);
  }

  lemma HalvesApart(g: Geometry, locA: nat, a: nat, locB: nat, b: nat)
    requires Separate(g) && Behind(g, locA, a, locB, b)
    ensures SECTOR <= locA && SECTOR <= locB && (locA + a <= locB || locB + b <= locA)
  {
  }

  lemma FitsSector(size: nat, img: seq<Byte>, locA: nat, locB: nat)
    requires Fits(size, img, locA, locB)
    ensures SECTOR <= size && SizeA(|img| - SECTOR) <= |img| - SECTOR
  {
  }

  // ----- Probe and refusal --------------------------------------------------------------------------

  /** A table is looked for at 512 first and at 4096 then. */
  lemma TableFound(v: seq<Byte>)
    ensures GptBlock(v) == 512 <==> 608 <= |v| && v[512..520] == Text("EFI PART")
    ensures GptBlock(v) == 4096 <==>
            4192 <= |v| && v[4096..4104] == Text("EFI PART") && !(608 <= |v| && v[512..520] == Text("EFI PART"))
    ensures GptBlock(v) == 0 || GptBlock(v) == 512 || GptBlock(v) == 4096
  {
    assert EFI_PART == Text("EFI PART");
  }

  /** The table is too full when a used entry lies behind the blocks that the first half of stage 2 leaves. */
  lemma GptFullMeaning(v: seq<Byte>, f: seq<Byte>, img: seq<Byte>, p: Fields, pr: seq<Byte>)
    requires SECTOR <= |img| && Explains(GptFull, v, f, img) && Narrow(p) && |pr| == 4 && Primary(v) == Encoded(p, pr)
    ensures var lb := GptBlock(v);
            && f == v && lb > 0 && SizeA(|img| - SECTOR) <= 32 * lb
            && exists j: nat :: (32 * lb - SizeA(|img| - SECTOR)) / lb * (lb / 128) <= j < p.entryCount
                                && EntryUsed(v, p.entryLba * lb, j)
  {
    hide Encoded, SizeA, SizeB, GptBlock, EntryUsed, Embeddable, WordAt;
    HeaderFields(p, pr);
    var lb, a := GptBlock(v), SizeA(|img| - SECTOR);
    var last :| IsLast(v, p.entryLba * lb, p.entryCount, last) && BlocksLeft(lb, a) * (lb / ENTRY) <= last;
    assert EntryUsed(v, p.entryLba * lb, last);
  }
}
