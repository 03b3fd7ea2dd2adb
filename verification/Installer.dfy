/** The boot sector and stage 2 that the installer writes. */
module Installer {
  import opened Bits
  import opened Words
  import opened DiskCache

  const SECTOR: nat := 512

  // ----- Stage 2 sizes ------------------------------------------------------------------

  /** stage2_sects */
  function Sectors(stage2: nat): nat {
    (stage2 + (SECTOR - 1)) / SECTOR
  }

  /** stage2_size_a, in 16 bits */
  function SizeA(stage2: nat): (a: nat)
    ensures a < 0x10000
  {
    (Sectors(stage2) / 2 * SECTOR + (if Sectors(stage2) % 2 != 0 then SECTOR else 0)) % 0x10000
  }

  /** stage2_size_b, in 16 bits */
  function SizeB(stage2: nat): (b: nat)
    ensures b < 0x10000
  {
    Sectors(stage2) / 2 * SECTOR % 0x10000
  }

  /** The first half is no longer than stage 2 unless stage 2 ends inside its first sector. */
  lemma FirstHalfFits(stage2: nat)
    ensures SizeA(stage2) <= stage2 <==> stage2 == 0 || SECTOR <= stage2
  {
  }

  /** The recorded sizes cover stage 2, rounded up to sectors, exactly up to 254 sectors. */
  lemma SizesCover(stage2: nat)
    ensures SizeA(stage2) + SizeB(stage2) == Sectors(stage2) * SECTOR <==> Sectors(stage2) <= 254
    ensures stage2 <= Sectors(stage2) * SECTOR < stage2 + SECTOR
    ensures Sectors(stage2) <= 254 ==> SizeB(stage2) <= SizeA(stage2)
  {
    var n := Sectors(stage2);
    assert SizeA(stage2) == (n + 1) / 2 * SECTOR % 0x10000;
    if n > 254 {
      assert SizeA(stage2) + SizeB(stage2) <= 2 * 0xFE00;
    }
  }

  /** A stage 2 of 100 bytes: the first half reads past the image. */
  lemma FirstHalfTooLong()
    ensures SizeA(100) == 512
  {
  }

  /** 255 sectors: the first half's size is recorded as 0. */
  lemma SizeLost()
    ensures Sectors(255 * SECTOR) == 255 && SizeA(255 * SECTOR) == 0 && SizeB(255 * SECTOR) == 127 * SECTOR
  {
  }

  // ----- What is written --------------------------------------------------------------------

  /** The 20 bytes at 0x1a4: sizes and places of the two halves. */
  function Locations(a: nat, b: nat, locA: nat, locB: nat): (r: seq<Byte>)
    ensures |r| == 20
  {
    Little(a, 2) + Little(b, 2) + Little(locA, 8) + Little(locB, 8)
  }

  /** All writes of the install fit on a device of the given size. */
  predicate Fits(size: nat, img: seq<Byte>, locA: nat, locB: nat) {
    && SECTOR <= |img| && SECTOR <= size && SizeA(|img| - SECTOR) <= |img| - SECTOR
    && (SizeA(|img| - SECTOR) > 0 ==> locA + SizeA(|img| - SECTOR) <= size)
    && (SizeA(|img| - SECTOR) < |img| - SECTOR ==> locB + (|img| - SECTOR - SizeA(|img| - SECTOR)) <= size)
  }

  /** The device after the boot sector and both halves were written. */
  function StagesView(v: seq<Byte>, img: seq<Byte>, locA: nat, locB: nat): (r: seq<Byte>)
    requires Fits(|v|, img, locA, locB)
    ensures |r| == |v|
  {
    var a := SizeA(|img| - SECTOR);
    Overlay(Overlay(Overlay(v, 0, img[..SECTOR]), locA, img[SECTOR..SECTOR + a]), locB, img[SECTOR + a..])
  }

  /** The device after the sizes and places of the halves were written. */
  function LocationsView(v: seq<Byte>, a: nat, b: nat, locA: nat, locB: nat): (r: seq<Byte>)
    requires SECTOR <= |v|
    ensures |r| == |v|
  {
    var v1 := Overlay(v, 0x1a4, Little(a, 2));
    var v2 := Overlay(v1, 0x1a4 + 2, Little(b, 2));
    Overlay(Overlay(v2, 0x1a4 + 4, Little(locA, 8)), 0x1a4 + 12, Little(locB, 8))
  }

  /** The device after all writes of the install; the time stamp and the partition table are put back last. */
  function BootView(v: seq<Byte>, img: seq<Byte>, locA: nat, locB: nat): (r: seq<Byte>)
    requires Fits(|v|, img, locA, locB)
    ensures |r| == |v|
  {
    var v1 := StagesView(v, img, locA, locB);
    var v2 := LocationsView(v1, SizeA(|img| - SECTOR), SizeB(|img| - SECTOR), locA, locB);
    RestoredView(v2, v)
  }

  /** The time stamp and the partition table of v, put back into w. */
  function RestoredView(w: seq<Byte>, v: seq<Byte>): (r: seq<Byte>)
    requires |w| == |v| && SECTOR <= |v|
    ensures |r| == |v|
  {
    Overlay(Overlay(w, 218, v[218..224]), 440, v[440..510])
  }

  lemma RestoredAt(w: seq<Byte>, v: seq<Byte>, x: nat)
    requires |w| == |v| && SECTOR <= |v| && x < |v|
    ensures RestoredView(w, v)[x] == if 218 <= x < 224 || 440 <= x < 510 then v[x] else w[x]
  {
    hide Overlay;
    OverlayAt(w, 218, v[218..224], x);
    OverlayAt(Overlay(w, 218, v[218..224]), 440, v[440..510], x);
  }

  /** Where the halves follow each other from sector 1 on, byte by byte. */
  lemma MbrBytes(v: seq<Byte>, img: seq<Byte>, x: nat)
    requires SECTOR <= |img| && Fits(|v|, img, SECTOR, SECTOR + SizeA(|img| - SECTOR)) && x < |v|
    ensures var a, b := SizeA(|img| - SECTOR), SizeB(|img| - SECTOR);
            BootView(v, img, SECTOR, SECTOR + a)[x] ==
            if 218 <= x < 224 || 440 <= x < 510 then v[x]
            else if 420 <= x < 440 then Locations(a, b, SECTOR, SECTOR + a)[x - 420]
            else if x < |img| then img[x]
            else v[x]
  {
    hide SizeA, SizeB, Little, StagesView, LocationsView, RestoredView, Locations;
    var a, b := SizeA(|img| - SECTOR), SizeB(|img| - SECTOR);
    var v1 := StagesView(v, img, SECTOR, SECTOR + a);
    var v2 := LocationsView(v1, a, b, SECTOR, SECTOR + a);
    StagesAt(v, img, x);
    LocationsAt(v1, a, b, SECTOR, SECTOR + a, x);
    RestoredAt(v2, v, x);
  }

  lemma StagesAt(v: seq<Byte>, img: seq<Byte>, x: nat)
    requires SECTOR <= |img| && Fits(|v|, img, SECTOR, SECTOR + SizeA(|img| - SECTOR)) && x < |v|
    ensures StagesView(v, img, SECTOR, SECTOR + SizeA(|img| - SECTOR))[x] == if x < |img| then img[x] else v[x]
  {
    hide SizeA, Overlay;
    var a := SizeA(|img| - SECTOR);
    var v1 := Overlay(v, 0, img[..SECTOR]);
    var v2 := Overlay(v1, SECTOR, img[SECTOR..SECTOR + a]);
    OverlayAt(v, 0, img[..SECTOR], x);
    OverlayAt(v1, SECTOR, img[SECTOR..SECTOR + a], x);
    OverlayAt(v2, SECTOR + a, img[SECTOR + a..], x);
  }

  /** Behind sector 0, for any places of the halves. */
  lemma BootBehind(v: seq<Byte>, img: seq<Byte>, locA: nat, locB: nat, x: nat)
    requires Fits(|v|, img, locA, locB) && SECTOR <= x < |v|
    ensures var a := SizeA(|img| - SECTOR);
            BootView(v, img, locA, locB)[x] ==
            if locB <= x < locB + (|img| - SECTOR - a) then img[SECTOR + a + (x - locB)]
            else if locA <= x < locA + a then img[SECTOR + (x - locA)]
            else v[x]
  {
    hide BootView, StagesView, SizeA, Fits;
    SameBehind(v, img, locA, locB, x);
    StagesBehind(v, img, locA, locB, x);
  }

  /** The writes after the two halves stay in sector 0. */
  lemma SameBehind(v: seq<Byte>, img: seq<Byte>, locA: nat, locB: nat, x: nat)
    requires Fits(|v|, img, locA, locB) && SECTOR <= x < |v|
    ensures BootView(v, img, locA, locB)[x] == StagesView(v, img, locA, locB)[x]
  {
    hide SizeA, SizeB, Little, LocationsView, StagesView, RestoredView;
    var a, b := SizeA(|img| - SECTOR), SizeB(|img| - SECTOR);
    var v1 := StagesView(v, img, locA, locB);
    var v2 := LocationsView(v1, a, b, locA, locB);
    LocationsAt(v1, a, b, locA, locB, x);
    RestoredAt(v2, v, x);
  }

  lemma StagesBehind(v: seq<Byte>, img: seq<Byte>, locA: nat, locB: nat, x: nat)
    requires Fits(|v|, img, locA, locB) && SECTOR <= x < |v|
    ensures var a := SizeA(|img| - SECTOR);
            StagesView(v, img, locA, locB)[x] ==
            if locB <= x < locB + (|img| - SECTOR - a) then img[SECTOR + a + (x - locB)]
            else if locA <= x < locA + a then img[SECTOR + (x - locA)]
            else v[x]
  {
    hide SizeA, Overlay;
    var a := SizeA(|img| - SECTOR);
    var v1 := Overlay(v, 0, img[..SECTOR]);
    var v2 := Overlay(v1, locA, img[SECTOR..SECTOR + a]);
    OverlayAt(v, 0, img[..SECTOR], x);
    OverlayAt(v1, locA, img[SECTOR..SECTOR + a], x);
    OverlayAt(v2, locB, img[SECTOR + a..], x);
  }

  lemma LocationsAt(v: seq<Byte>, a: nat, b: nat, locA: nat, locB: nat, x: nat)
    requires SECTOR <= |v| && x < |v|
    ensures LocationsView(v, a, b, locA, locB)[x] == if 420 <= x < 440 then Locations(a, b, locA, locB)[x - 420]
              else v[x]
  {
    hide Overlay, Little;
    var v1 := Overlay(v, 0x1a4, Little(a, 2));
    var v2 := Overlay(v1, 0x1a4 + 2, Little(b, 2));
    var v3 := Overlay(v2, 0x1a4 + 4, Little(locA, 8));
    OverlayAt(v, 0x1a4, Little(a, 2), x);
    OverlayAt(v1, 0x1a4 + 2, Little(b, 2), x);
    OverlayAt(v2, 0x1a4 + 4, Little(locA, 8), x);
    OverlayAt(v3, 0x1a4 + 12, Little(locB, 8), x);
  }

  /** The four fields can be read back from the boot sector. */
  lemma LocationFields(a: nat, b: nat, locA: nat, locB: nat)
    requires a < 0x10000 && b < 0x10000 && locA < WORD && locB < WORD
    ensures var f := Locations(a, b, locA, locB);
            WordAt(f, 0, 2) == a && WordAt(f, 2, 2) == b && WordAt(f, 4, 8) == locA && WordAt(f, 12, 8) == locB
  {
    hide Little, Value;
    var f := Locations(a, b, locA, locB);
    assert f[0..2] == Little(a, 2) && f[2..4] == Little(b, 2) && f[4..12] == Little(locA, 8)
    && f[12..20] == Little(locB, 8);
    FieldLimits();
    ValueLittle(a, 2);
    ValueLittle(b, 2);
    ValueLittle(locA, 8);
    ValueLittle(locB, 8);
  }

  lemma FieldLimits()
    ensures Pow2(8 * 2) == 0x10000 && Pow2(8 * 8) == WORD
  {
    Pow2Values();
    Pow2Large();
  }

  // ----- Sanity checks --------------------------------------------------------------------------

  const EFI_PART: seq<Byte> := [0x45, 0x46, 0x49, 0x20, 0x50, 0x41, 0x52, 0x54]
  const ECH_FS: seq<Byte> := [0x5F, 0x45, 0x43, 0x48, 0x5F, 0x46, 0x53, 0x5F]
  const FAT: seq<Byte> := [0x46, 0x41, 0x54]

  /** sizeof(struct gpt_table_header) */
  const GPT_HEADER: nat := 96

  /** The probes of a device without GPT: no header at either logical block size. */
  predicate NoGpt(v: seq<Byte>)
    requires 4096 + GPT_HEADER <= |v|
  {
    v[512..520] != EFI_PART && v[4096..4104] != EFI_PART
  }

  predicate Inactive(flag: int) {
    flag == 0x00 || flag == 0x80
  }

  predicate SaneWords(v: seq<Byte>)
    requires 1082 <= |v|
  {
    && WordAt(v, 218, 2) == 0 && (WordAt(v, 444, 2) == 0 || WordAt(v, 444, 2) == 0x5a5a)
    && WordAt(v, 510, 2) == 0xaa55 && WordAt(v, 1080, 2) != 0xef53
  }

  predicate SaneFlags(v: seq<Byte>)
    requires 495 <= |v|
  {
    Inactive(WordAt(v, 446, 1)) && Inactive(WordAt(v, 462, 1)) && Inactive(WordAt(v, 478, 1))
    && Inactive(WordAt(v, 494, 1))
  }

  predicate SanePartitions(v: seq<Byte>)
    requires 1082 <= |v|
  {
    SaneFlags(v) && v[4..12] != ECH_FS && v[54..57] != FAT
  }

  lemma TwoBytes(v: seq<Byte>, a: nat)
    requires a + 2 <= |v|
    ensures WordAt(v, a, 2) == WordAt(v, a, 1) + 256 * WordAt(v, a + 1, 1)
    ensures WordAt(v, a, 1) == v[a] && WordAt(v, a + 1, 1) == v[a + 1]
  {
    assert v[a..a + 2][1..] == v[a + 1..a + 2] == [v[a + 1]] && [v[a + 1]][1..] == [] && v[a..a + 1][1..] == [];
    assert Value([]) == 0;
    assert Value([v[a + 1]]) == v[a + 1];
  }

  /**
   The devices without GPT that are accepted, byte by byte: no time stamp mark at 218,
   nothing or 0x5A5A at 444, the boot signature, no ext magic, partition flags of 0 or
   0x80, and neither an echfs nor a FAT name.
   */
  lemma SaneBytes(v: seq<Byte>)
    requires 1082 <= |v|
    ensures SaneWords(v) <==>
            && v[218] == 0 && v[219] == 0
            && ((v[444] == 0 && v[445] == 0) || (v[444] == 0x5A && v[445] == 0x5A))
            && v[510] == 0x55 && v[511] == 0xAA && !(v[1080] == 0x53 && v[1081] == 0xEF)
    ensures SanePartitions(v) <==>
            && (v[446] == 0 || v[446] == 0x80) && (v[462] == 0 || v[462] == 0x80)
            && (v[478] == 0 || v[478] == 0x80) && (v[494] == 0 || v[494] == 0x80)
            && !(v[4] == '_' as int && v[5] == 'E' as int && v[6] == 'C' as int && v[7] == 'H' as int
                 && v[8] == '_' as int && v[9] == 'F' as int && v[10] == 'S' as int && v[11] == '_' as int)
            && !(v[54] == 'F' as int && v[55] == 'A' as int && v[56] == 'T' as int)
  {
    hide Value;
    TwoBytes(v, 218);
    TwoBytes(v, 444);
    TwoBytes(v, 510);
    TwoBytes(v, 1080);
    TwoBytes(v, 446);
    TwoBytes(v, 462);
    TwoBytes(v, 478);
    TwoBytes(v, 494);
    EightEqual(v);
    assert v[54..57] == FAT <==> v[54] == FAT[0] && v[55] == FAT[1] && v[56] == FAT[2];
  }

  lemma EightEqual(v: seq<Byte>)
    requires 12 <= |v|
    ensures v[4..12] == ECH_FS <==> v[4] == ECH_FS[0] && v[5] == ECH_FS[1] && v[6] == ECH_FS[2] && v[7] == ECH_FS[3]
                                    && v[8] == ECH_FS[4] && v[9] == ECH_FS[5] && v[10] == ECH_FS[6]
                                    && v[11] == ECH_FS[7]
  {
    var w := v[4..12];
    assert w[0] == v[4] && w[1] == v[5] && w[2] == v[6] && w[3] == v[7];
    assert w[4] == v[8] && w[5] == v[9] && w[6] == v[10] && w[7] == v[11];
  }

  /** A blank device with a boot signature is accepted, and refused with a second partition flag of 1. */
  lemma SaneCase()
    ensures var blank := seq(8192, x => if x == 510 then 0x55 else if x == 511 then 0xAA else 0);
            SaneWords(blank) && SanePartitions(blank) && !SanePartitions(blank[462 := 1])
  {
    var blank := seq(8192, x => if x == 510 then 0x55 else if x == 511 then 0xAA else 0);
    hide SaneWords, SanePartitions;
    SaneBytes(blank);
    SaneBytes(blank[462 := 1]);
  }

  datatype Outcome = Installed | Refused | HasGpt | Failed

  /** A little-endian field of the device. */
  method ReadField(device: Device, loc: nat, count: nat) returns (ok: bool, w: nat)
    requires device.Valid() && count > 0
    modifies device`cachedBlock, device`dirty, device.cache, device.disk
    ensures ok ==> device.Valid() && device.View() == old(device.View())
    ensures ok ==> loc + count <= |device.View()| && w == WordAt(device.View(), loc, count)
    ensures !device.faulty && device.Readable(loc, count) ==> ok
  {
    hide Device.View, Device.Valid, Whole, Value;
    var bytes;
    ok, bytes := device.Read(loc, count);
    w := Value(bytes);
  }

  /** The probe for a GPT header at 512 and at 4096; found is the logical block size, or 0. */
  method Probe(device: Device) returns (ok: bool, found: nat, header: seq<Byte>)
    requires device.Valid()
    modifies device`cachedBlock, device`dirty, device.cache, device.disk
    ensures ok ==> device.Valid() && device.View() == old(device.View())
    ensures ok && found == 0 ==> 4096 + GPT_HEADER <= |device.View()| && NoGpt(device.View())
    ensures ok && found != 0 ==>
              && (found == 512 || found == 4096) && found + GPT_HEADER <= |device.View()|
              && device.View()[found..found + 8] == EFI_PART && header == device.View()[found..found + GPT_HEADER]
              && (found == 4096 ==> device.View()[512..520] != EFI_PART)
    ensures !device.faulty && device.Readable(0, 4096 + GPT_HEADER) ==> ok
  {
    hide Device.View, Device.Valid, Whole;
    found := 0;
    ok, header := device.Read(512, GPT_HEADER);
    if !ok {
      return;
    }
    ghost var view := device.View();
    assert header[..8] == view[512..520];
    if header[..8] == EFI_PART {
      return true, 512, header;
    }
    ok, header := device.Read(4096, GPT_HEADER);
    if !ok {
      return;
    }
    assert header[..8] == view[4096..4104];
    if header[..8] == EFI_PART {
      found := 4096;
    }
  }

  /** The checks of 16-bit fields. */
  method CheckWords(device: Device) returns (ok: bool, mbr: bool)
    requires device.Valid()
    modifies device`cachedBlock, device`dirty, device.cache, device.disk
    ensures ok ==> device.Valid() && device.View() == old(device.View())
    ensures ok ==> 1082 <= |device.View()| && mbr == SaneWords(device.View())
    ensures !device.faulty && device.Readable(0, 1082) ==> ok
  {
    hide Device.View, Device.Valid, Whole, WordAt;
    mbr := false;
    var hint, other, magic, ext;
    ok, hint := ReadField(device, 218, 2);
    if !ok {
      return;
    }
    ok, other := ReadField(device, 444, 2);
    if !ok {
      return;
    }
    ok, magic := ReadField(device, 510, 2);
    if !ok {
      return;
    }
    ok, ext := ReadField(device, 1080, 2);
    mbr := hint == 0 && (other == 0 || other == 0x5a5a) && magic == 0xaa55 && ext != 0xef53;
  }

  /** The checks of the partition flags and the file system marks. */
  method CheckPartitions(device: Device) returns (ok: bool, mbr: bool)
    requires device.Valid()
    modifies device`cachedBlock, device`dirty, device.cache, device.disk
    ensures ok ==> device.Valid() && device.View() == old(device.View())
    ensures ok && 1082 <= |device.View()| ==> mbr == SanePartitions(device.View())
    ensures !device.faulty && device.Readable(0, 1082) ==> ok
  {
    hide Device.View, Device.Valid, Whole, SaneFlags;
    var flags;
    ok, flags := CheckFlags(device);
    mbr := false;
    if !ok {
      return;
    }
    var hintc, fat;
    ok, hintc := device.Read(4, 8);
    if !ok {
      return;
    }
    ok, fat := device.Read(54, 3);
    mbr := flags && hintc != ECH_FS && fat != FAT;
  }

  method CheckFlags(device: Device) returns (ok: bool, mbr: bool)
    requires device.Valid()
    modifies device`cachedBlock, device`dirty, device.cache, device.disk
    ensures ok ==> device.Valid() && device.View() == old(device.View()) && 495 <= |device.View()|
    ensures ok ==> mbr == SaneFlags(device.View())
    ensures !device.faulty && device.Readable(0, 1082) ==> ok
  {
    hide Device.View, Device.Valid, Whole, WordAt;
    mbr := false;
    var flag0, flag1, flag2, flag3;
    ok, flag0 := ReadField(device, 446, 1);
    if !ok {
      return;
    }
    ok, flag1 := ReadField(device, 462, 1);
    if !ok {
      return;
    }
    ok, flag2 := ReadField(device, 478, 1);
    if !ok {
      return;
    }
    ok, flag3 := ReadField(device, 494, 1);
    mbr := Inactive(flag0) && Inactive(flag1) && Inactive(flag2) && Inactive(flag3);
  }

  /** The writes fit in the whole blocks of the device. */
  predicate FitsOn(device: Device, img: seq<Byte>, locA: nat, locB: nat)
    requires device.blockSize > 0
    reads device
  {
    Fits(Whole(device.disk.Length, device.blockSize), img, locA, locB)
  }

  /** The boot sector and stage 2. */
  method WriteStages(device: Device, img: seq<Byte>, locA: nat, locB: nat) returns (ok: bool)
    requires device.Valid() && SECTOR <= |img| && SizeA(|img| - SECTOR) <= |img| - SECTOR
    modifies device`cachedBlock, device`dirty, device.cache, device.disk
    ensures ok ==> device.Valid() && Fits(device.disk.Length, img, locA, locB)
    ensures ok ==> device.View() == StagesView(old(device.View()), img, locA, locB)
    ensures !device.faulty && FitsOn(device, img, locA, locB) ==> ok
  {
    hide Device.View, Device.Valid, Whole, Overlay, SizeA;
    var a := SizeA(|img| - SECTOR);
    ok := device.Write(img[..SECTOR], 0);
    if !ok {
      return;
    }
    ok := device.Write(img[SECTOR..SECTOR + a], locA);
    if !ok {
      return;
    }
    ok := device.Write(img[SECTOR + a..], locB);
  }

  /** The sizes and places of the halves. */
  method WriteLocations(device: Device, a: nat, b: nat, locA: nat, locB: nat) returns (ok: bool)
    requires device.Valid() && SECTOR <= device.disk.Length
    modifies device`cachedBlock, device`dirty, device.cache, device.disk
    ensures ok ==> device.Valid()
    ensures ok ==> device.View() == LocationsView(old(device.View()), a, b, locA, locB)
    ensures !device.faulty && device.Readable(0, SECTOR) ==> ok
  {
    hide Device.View, Device.Valid, Whole, Overlay, Little;
    ok := device.Write(Little(a, 2), 0x1a4);
    if !ok {
      return;
    }
    ok := device.Write(Little(b, 2), 0x1a4 + 2);
    if !ok {
      return;
    }
    ok := device.Write(Little(locA, 8), 0x1a4 + 4);
    if !ok {
      return;
    }
    ok := device.Write(Little(locB, 8), 0x1a4 + 12);
  }

  /** The end of main, up to the flush: save two fields of sector 0, write everything, put them back. */
  method WriteBoot(device: Device, img: seq<Byte>, locA: nat, locB: nat) returns (ok: bool)
    requires device.Valid() && SECTOR <= |img| && SizeA(|img| - SECTOR) <= |img| - SECTOR
    modifies device`cachedBlock, device`dirty, device.cache, device.disk
    ensures ok ==> device.Valid() && Fits(device.disk.Length, img, locA, locB)
    ensures ok ==> device.View() == BootView(old(device.View()), img, locA, locB)
    ensures !device.faulty && FitsOn(device, img, locA, locB) ==> ok
  {
    hide Device.View, Device.Valid, Whole, Overlay, StagesView, LocationsView, SizeA, SizeB;
    var timestamp, table;
    ok, timestamp := device.Read(218, 6);
    if !ok {
      return;
    }
    ok, table := device.Read(440, 70);
    if !ok {
      return;
    }
    ok := WriteStages(device, img, locA, locB);
    if !ok {
      return;
    }
    ok := WriteLocations(device, SizeA(|img| - SECTOR), SizeB(|img| - SECTOR), locA, locB);
    if !ok {
      return;
    }
    ok := device.Write(timestamp, 218);
    if !ok {
      return;
    }
    ok := device.Write(table, 440);
  }

  /** The end of main with the flush. */
  method WriteAll(device: Device, img: seq<Byte>, locA: nat, locB: nat) returns (ok: bool)
    requires device.Valid() && SECTOR <= |img| && SizeA(|img| - SECTOR) <= |img| - SECTOR
    modifies device`cachedBlock, device`dirty, device.cache, device.disk
    ensures ok ==> device.Valid() && Fits(device.disk.Length, img, locA, locB)
    ensures ok ==> device.disk[..] == BootView(old(device.View()), img, locA, locB) && device.View() == device.disk[..]
    ensures !device.faulty && FitsOn(device, img, locA, locB) ==> ok
  {
    hide Device.View, Device.Valid, Whole, BootView, SizeA, Fits;
    ok := WriteBoot(device, img, locA, locB);
    if ok {
      ok := device.Flush();
    }
  }

  /**
   The installer on a device without GPT and without --force-mbr. A refusal
   changes nothing; after a success the disk is the boot image with the time
   stamp and the partition table kept.
   */
  method InstallMbr(device: Device, img: seq<Byte>) returns (outcome: Outcome)
    requires device.Valid() && SECTOR <= |img| && SizeA(|img| - SECTOR) <= |img| - SECTOR
    modifies device`cachedBlock, device`dirty, device.cache, device.disk
    ensures outcome == Refused || outcome == HasGpt ==> device.Valid() && device.View() == old(device.View())
    ensures outcome == HasGpt ==> 4096 + GPT_HEADER > |device.View()| || !NoGpt(device.View())
    ensures outcome == Refused || outcome == Installed ==>
              var v := old(device.View());
              4096 + GPT_HEADER <= |v| && NoGpt(v) && (outcome == Installed <==> SaneWords(v) && SanePartitions(v))
    ensures outcome == Installed ==> InstalledMbr(old(device.View()), device.disk[..], img)
    ensures !device.faulty && device.Readable(0, 4096 + GPT_HEADER) && device.Readable(0, |img|) ==> outcome != Failed
  {
    hide Device.View, Device.Valid, Whole, BootView, SaneWords, SanePartitions, SizeA, NoGpt;
    ghost var view := device.View();
    var ok, found, header := Probe(device);
    if !ok {
      return Failed;
    }
    if found != 0 {
      ProbeFound(view, found);
      return HasGpt;
    }
    outcome := MbrPath(device, img);
  }

  /** The path of main for a device without GPT. */
  method MbrPath(device: Device, img: seq<Byte>) returns (outcome: Outcome)
    requires device.Valid() && SECTOR <= |img| && SizeA(|img| - SECTOR) <= |img| - SECTOR
    modifies device`cachedBlock, device`dirty, device.cache, device.disk
    ensures outcome != HasGpt
    ensures outcome == Refused ==> device.Valid() && device.View() == old(device.View())
    ensures outcome == Refused || outcome == Installed ==>
              var v := old(device.View());
              1082 <= |v| && (outcome == Installed <==> SaneWords(v) && SanePartitions(v))
    ensures outcome == Installed ==>
              device.Valid() && device.View() == device.disk[..]
              && InstalledMbr(old(device.View()), device.disk[..], img)
    ensures !device.faulty && device.Readable(0, 1082) && device.Readable(0, |img|) ==> outcome != Failed
  {
    hide Device.View, Device.Valid, Whole, BootView, SaneWords, SanePartitions, SizeA;
    var ok, words := CheckWords(device);
    if !ok {
      return Failed;
    }
    var partitions;
    ok, partitions := CheckPartitions(device);
    if !ok {
      return Failed;
    }
    if !words || !partitions {
      return Refused;
    }
    ok := WriteAll(device, img, SECTOR, SECTOR + SizeA(|img| - SECTOR));
    outcome := if ok then Installed else Failed;
  }

  /** f is the device v after an MBR install: both halves follow each other from sector 1 on. */
  ghost predicate InstalledMbr(v: seq<Byte>, f: seq<Byte>, img: seq<Byte>)
    requires SECTOR <= |img|
  {
    var locB := SECTOR + SizeA(|img| - SECTOR);
    Fits(|v|, img, SECTOR, locB) && f == BootView(v, img, SECTOR, locB)
  }

  lemma ProbeFound(v: seq<Byte>, found: nat)
    requires (found == 512 || found == 4096) && found + GPT_HEADER <= |v| && v[found..found + 8] == EFI_PART
    ensures 4096 + GPT_HEADER > |v| || !NoGpt(v)
  {
  }
}
