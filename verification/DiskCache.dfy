/** The installer's one-block write-back cache over a device. */
module DiskCache {
  import opened Bits
  import opened Words

  // ----- Blocks and bytes -------------------------------------------------------------

  lemma DivMod(x: nat, d: nat)
    requires d > 0
    ensures x / d * d + x % d == x && x / d * d <= x < x / d * d + d
  {
  }

  /** A block that starts inside the whole blocks of the device ends inside it. */
  lemma WholeBlock(block: nat, d: nat, size: nat)
    requires d > 0
    ensures block * d + d <= size <==> block * d < size / d * d
    ensures block * d + d <= size ==> block * d + d <= size / d * d
  {
    DivMod(size, d);
    if block < size / d {
      MulMonotone(block + 1, size / d, d);
    } else {
      MulMonotone(size / d, block, d);
    }
  }

  lemma BlockInside(at: nat, d: nat, size: nat)
    requires d > 0
    ensures at / d * d + at % d == at && at % d < d
    ensures at / d * d + d <= size <==> at < size / d * d
    ensures at < size / d * d ==> at / d * d + d <= size / d * d <= size
  {
    DivMod(at, d);
    DivMod(size, d);
    WholeBlock(at / d, d, size);
    if at / d < size / d {
      MulMonotone(at / d + 1, size / d, d);
    } else {
      MulMonotone(size / d, at / d, d);
    }
  }

  lemma PutMore(m: seq<Byte>, a: nat, s: seq<Byte>, i: nat, j: nat)
    requires i <= j <= |s| && a + j <= |m|
    ensures Put(Put(m, a, s[..i]), a + i, s[i..j]) == Put(m, a, s[..j])
  {
  }

  lemma PutTwice(m: seq<Byte>, base: nat, c: seq<Byte>, offset: nat, s: seq<Byte>)
    requires base + |c| <= |m| && offset + |s| <= |c|
    ensures Put(Put(m, base, c), base + offset, s) == Put(m, base, Put(c, offset, s))
  {
  }

  lemma PutSame(m: seq<Byte>, a: nat, n: nat)
    requires a + n <= |m|
    ensures Put(m, a, m[a..a + n]) == m
  {
  }

  lemma PutOver(m: seq<Byte>, a: nat, s: seq<Byte>, t: seq<Byte>)
    requires a + |s| <= |m| && |s| == |t|
    ensures Put(Put(m, a, s), a, t) == Put(m, a, t)
    ensures Put(m, a, s)[a..a + |s|] == s
  {
  }

  /** m with the bytes s at address a; writing nothing needs no place. */
  function Overlay(m: seq<Byte>, a: nat, s: seq<Byte>): (r: seq<Byte>)
    requires s == [] || a + |s| <= |m|
    ensures |r| == |m|
  {
    if s == [] then m else Put(m, a, s)
  }

  lemma OverlayIsPut(m: seq<Byte>, a: nat, s: seq<Byte>)
    requires a + |s| <= |m|
    ensures Overlay(m, a, s) == Put(m, a, s)
  {
  }

  lemma OverlayNothing(m: seq<Byte>, a: nat, s: seq<Byte>)
    requires s == []
    ensures Overlay(m, a, s) == m
  {
  }

  lemma OverlayAt(m: seq<Byte>, a: nat, s: seq<Byte>, x: nat)
    requires (s == [] || a + |s| <= |m|) && x < |m|
    ensures Overlay(m, a, s)[x] == if a <= x < a + |s| then s[x - a] else m[x]
  {
  }

  lemma OverlayMore(m: seq<Byte>, a: nat, s: seq<Byte>, i: nat, n: nat)
    requires i + n <= |s| && a + i + n <= |m|
    ensures Overlay(Overlay(m, a, s[..i]), a + i, s[i..][..n]) == Overlay(m, a, s[..i + n])
  {
    assert s[i..][..n] == s[i..i + n];
    PutMore(m, a, s, i, i + n);
  }

  /** n bytes from address a, as far as there are any. */
  function Slice(m: seq<Byte>, a: nat, n: nat): seq<Byte> {
    if n > 0 && a + n <= |m| then m[a..a + n] else []
  }

  /** Bytes that lie in whole blocks of d bytes. */
  function Whole(size: nat, d: nat): nat
    requires d > 0
  {
    size / d * d
  }

  // ----- Runs on a flat device -------------------------------------------------------------

  datatype Op = Get(loc: nat, count: nat) | Set(loc: nat, data: seq<Byte>) {
    function Count(): nat {
      if Get? then count else |data|
    }
  }

  /** The flat device after one operation. */
  function Applied(v: seq<Byte>, op: Op): (r: seq<Byte>)
    ensures |r| == |v|
  {
    match op
    case Get(_, _) => v
    case Set(loc, data) => if data == [] || loc + |data| <= |v| then Overlay(v, loc, data) else v
  }

  /** What a flat device answers. */
  function Result(v: seq<Byte>, op: Op): seq<Byte> {
    match op
    case Get(loc, count) => if loc + count <= |v| then v[loc..loc + count] else []
    case Set(_, _) => []
  }

  function After(v: seq<Byte>, ops: seq<Op>): (r: seq<Byte>)
    ensures |r| == |v|
  {
    if ops == [] then v else Applied(After(v, ops[..|ops| - 1]), ops[|ops| - 1])
  }

  function Results(v: seq<Byte>, ops: seq<Op>): seq<seq<Byte>> {
    if ops == [] then []
    else Results(v, ops[..|ops| - 1]) + [Result(After(v, ops[..|ops| - 1]), ops[|ops| - 1])]
  }

  /** A read returns, byte by byte, what was written last, or what the device held at the start. */
  lemma {:induction false} LastWritten(v: seq<Byte>, ops: seq<Op>, x: nat)
    requires x < |v|
    ensures After(v, ops)[x] ==
            var i := LastWriter(|v|, ops, x);
            if i < 0 then v[x] else ops[i].data[x - ops[i].loc]
  {
    if ops != [] {
      LastWritten(v, ops[..|ops| - 1], x);
      AppliedAt(After(v, ops[..|ops| - 1]), ops[|ops| - 1], x);
      hide Applied, Writes;
    }
  }

  lemma AppliedAt(v: seq<Byte>, op: Op, x: nat)
    requires x < |v|
    ensures Writes(|v|, op, x) ==>
              op.Set? && op.loc <= x < op.loc + |op.data| && Applied(v, op)[x] == op.data[x - op.loc]
    ensures !Writes(|v|, op, x) ==> Applied(v, op)[x] == v[x]
  {
    if op.Set? && (op.data == [] || op.loc + |op.data| <= |v|) {
      OverlayAt(v, op.loc, op.data, x);
      hide Overlay;
    }
  }

  /** Index of the last operation that wrote address x, or -1. */
  function LastWriter(size: nat, ops: seq<Op>, x: nat): (i: int)
    ensures -1 <= i < |ops|
    ensures i >= 0 ==> Writes(size, ops[i], x)
    ensures forall j | i < j < |ops| :: !Writes(size, ops[j], x)
  {
    if ops == [] then -1
    else if Writes(size, ops[|ops| - 1], x) then |ops| - 1
    else LastWriter(size, ops[..|ops| - 1], x)
  }

  predicate Writes(size: nat, op: Op, x: nat) {
    op.Set? && op.loc <= x < op.loc + |op.data| && op.loc + |op.data| <= size
  }

  // ----- The device ----------------------------------------------------------------------

  class Device {
    /** Whether calls to the device may fail for reasons of their own. */
    const faulty: bool
    const disk: array<Byte>
    var cache: array<Byte>
    var cachedBlock: nat
    var dirty: bool
    var blockSize: nat

    constructor (disk: array<Byte>, faulty: bool)
      ensures this.disk == disk && this.faulty == faulty
    {
      this.disk, this.faulty := disk, faulty;
      cache := new Byte[0];
      cachedBlock, dirty, blockSize := 0, false, 0;
    }

    function Base(): nat
      reads this
    {
      cachedBlock * blockSize
    }

    ghost predicate Valid()
      reads this, cache, disk
    {
      && blockSize > 0 && cache.Length == blockSize && cache != disk
      && Base() + blockSize <= disk.Length
      && (!dirty ==> cache[..] == disk[..][Base()..Base() + blockSize])
    }

    /** The device as its user sees it: the disk with the cached block over it. */
    ghost function View(): (v: seq<Byte>)
      requires Valid()
      reads this, cache, disk
      ensures |v| == disk.Length
    {
      Put(disk[..], Base(), cache[..])
    }

    predicate Readable(loc: nat, count: nat)
      requires blockSize > 0
      reads this
    {
      count == 0 || loc + count <= Whole(disk.Length, blockSize)
    }

    /** fread of one block into the cache. */
    method LoadBlock(pos: nat) returns (ok: bool)
      requires cache.Length == blockSize && cache != disk
      modifies cache
      ensures ok ==> pos + blockSize <= disk.Length && cache[..] == disk[..][pos..pos + blockSize]
      ensures !faulty && pos + blockSize <= disk.Length ==> ok
    {
      var fails: bool := *;
      if (faulty && fails) || pos + blockSize > disk.Length {
        return false;
      }
      for i := 0 to blockSize
        invariant forall k | 0 <= k < i :: cache[k] == disk[pos + k]
      {
        cache[i] := disk[pos + i];
      }
      ok := true;
    }

    /** device_init: the first block size of 512, 2048 and 4096 that can be read. */
    method Init() returns (ok: bool)
      modifies this
      ensures ok ==> Valid() && !dirty && fresh(cache) && View() == disk[..]
      ensures ok ==> blockSize == 512 || blockSize == 2048 || blockSize == 4096
      ensures !faulty && disk.Length >= 512 ==> ok && blockSize == 512
      ensures disk.Length < 512 ==> !ok
    {
      var guesses := [512, 2048, 4096];
      for i := 0 to 3
        invariant i > 0 ==> faulty || disk.Length < 512
      {
        cache, blockSize := new Byte[guesses[i]], guesses[i];
        var ret := LoadBlock(0);
        if ret {
          dirty, cachedBlock := false, 0;
          PutSame(disk[..], 0, blockSize);
          return true;
        }
      }
      ok := false;
    }

    /** device_flush_cache: afterwards the disk holds what the user sees. */
    method Flush() returns (ok: bool)
      requires Valid()
      modifies this`dirty, disk
      ensures ok ==> Valid() && !dirty && View() == old(View()) && disk[..] == old(View())
      ensures !faulty ==> ok
    {
      if !dirty {
        PutSame(disk[..], Base(), blockSize);
        return true;
      }
      var fails: bool := *;
      if faulty && fails {
        return false;
      }
      var pos := Base();
      ghost var before := disk[..];
      for i := 0 to blockSize
        invariant forall x | 0 <= x < disk.Length :: disk[x] == if pos <= x < pos + i then cache[x - pos] else before[x]
      {
        disk[pos + i] := cache[i];
      }
      dirty := false;
      assert disk[..] == Put(before, pos, cache[..]);
      PutOver(before, pos, cache[..], cache[..]);
      ok := true;
    }

    /** device_cache_block: another block comes into the cache, the view stays. */
    method CacheBlock(block: nat) returns (ok: bool)
      requires Valid()
      modifies this`cachedBlock, this`dirty, cache, disk
      ensures ok ==> Valid() && cachedBlock == block && View() == old(View())
      ensures ok ==> block * blockSize + blockSize <= disk.Length
      ensures !faulty && block * blockSize + blockSize <= disk.Length ==> ok
    {
      if cachedBlock == block {
        return true;
      }
      if dirty {
        ok := Flush();
        if !ok {
          return;
        }
      }
      ok := LoadClean(block);
    }

    /** The rest of device_cache_block, with nothing left to write back. */
    method LoadClean(block: nat) returns (ok: bool)
      requires Valid() && !dirty
      modifies this`cachedBlock, cache
      ensures ok ==> Valid() && cachedBlock == block && View() == old(View())
      ensures ok ==> block * blockSize + blockSize <= disk.Length
      ensures !faulty && block * blockSize + blockSize <= disk.Length ==> ok
    {
      PutSame(disk[..], Base(), blockSize);
      ok := LoadBlock(block * blockSize);
      if ok {
        cachedBlock := block;
        PutSame(disk[..], Base(), blockSize);
      }
    }

    /** The part of a request that lies in the block of its first byte. */
    method Locate(at: nat, left: nat) returns (block: nat, offset: nat, chunk: nat)
      requires blockSize > 0
      ensures block * blockSize + offset == at && offset + chunk <= blockSize && chunk <= left
      ensures (left > 0 ==> chunk > 0)
      ensures block * blockSize + blockSize <= disk.Length <==> at < Whole(disk.Length, blockSize)
      ensures at < Whole(disk.Length, blockSize) ==> at + chunk <= Whole(disk.Length, blockSize) <= disk.Length
    {
      block, offset := at / blockSize, at % blockSize;
      chunk := left;
      if chunk > blockSize - offset {
        chunk := blockSize - offset;
      }
      BlockInside(at, blockSize, disk.Length);
    }

    /** One round of _device_read. */
    method ReadChunk(at: nat, left: nat) returns (ok: bool, piece: seq<Byte>)
      requires Valid() && left > 0
      modifies this`cachedBlock, this`dirty, cache, disk
      ensures ok ==>
                Valid() && View() == old(View()) && 0 < |piece| <= left
                && at + |piece| <= Whole(disk.Length, blockSize) <= disk.Length
      ensures ok ==> piece == View()[at..at + |piece|]
      ensures !faulty && at < Whole(disk.Length, blockSize) ==> ok
    {
      hide View, Whole, Put;
      var block, offset, chunk := Locate(at, left);
      ok := CacheBlock(block);
      if !ok {
        return ok, [];
      }
      piece := cache[offset..offset + chunk];
      ViewOf(offset, chunk);
    }

    /** One round of _device_read's loop, after the bytes that the rounds before got. */
    method ReadNext(loc: nat, count: nat, before: seq<Byte>, ghost view: seq<Byte>)
      returns (ok: bool, buffer: seq<Byte>)
      requires Valid() && View() == view && |before| < count
      requires before == Slice(view, loc, |before|)
      modifies this`cachedBlock, this`dirty, cache, disk
      ensures ok ==> Valid() && View() == view && |before| < |buffer| <= count
      ensures ok ==>
                loc + |buffer| <= Whole(disk.Length, blockSize) <= disk.Length && buffer == Slice(view, loc, |buffer|)
      ensures !faulty && loc + |before| < Whole(disk.Length, blockSize) ==> ok
    {
      hide View, Whole;
      var piece;
      ok, piece := ReadChunk(loc + |before|, count - |before|);
      buffer := before + piece;
    }

    /** _device_read */
    method Read(loc: nat, count: nat) returns (ok: bool, buffer: seq<Byte>)
      requires Valid()
      modifies this`cachedBlock, this`dirty, cache, disk
      ensures ok ==> Valid() && View() == old(View()) && Readable(loc, count)
      ensures ok && count > 0 ==> loc + count <= disk.Length && buffer == View()[loc..loc + count]
      ensures ok && count == 0 ==> buffer == []
      ensures !faulty && Readable(loc, count) ==> ok
    {
      assert blockSize > 0;
      hide View, Whole, Valid;
      buffer := [];
      ghost var view := View();
      while |buffer| < count
        invariant |buffer| <= count && Valid() && View() == view && blockSize > 0
        invariant buffer == Slice(view, loc, |buffer|)
        invariant |buffer| > 0 ==> loc + |buffer| <= Whole(disk.Length, blockSize) <= disk.Length
        decreases count - |buffer|
      {
        ok, buffer := ReadNext(loc, count, buffer, view);
        if !ok {
          return;
        }
      }
      ok := true;
    }

    /** The cached bytes are the ones the user sees. */
    lemma ViewOf(offset: nat, chunk: nat)
      requires Valid() && offset + chunk <= blockSize
      ensures Base() + offset + chunk <= disk.Length
      ensures cache[offset..offset + chunk] == View()[Base() + offset..Base() + offset + chunk]
    {
    }

    /** memcpy into the cached block. */
    method Patch(offset: nat, bytes: seq<Byte>)
      requires Valid() && offset + |bytes| <= blockSize
      modifies this`dirty, cache
      ensures Valid() && View() == Put(old(View()), Base() + offset, bytes)
    {
      ghost var before := cache[..];
      for i := 0 to |bytes|
        invariant forall x | 0 <= x < blockSize ::
                    cache[x] == if offset <= x < offset + i then bytes[x - offset] else before[x]
      {
        cache[offset + i] := bytes[i];
      }
      dirty := true;
      assert cache[..] == Put(before, offset, bytes);
      PutTwice(disk[..], Base(), before, offset, bytes);
    }

    /** One round of _device_write: the first n bytes. */
    method WriteChunk(at: nat, bytes: seq<Byte>) returns (ok: bool, n: nat)
      requires Valid() && bytes != []
      modifies this`cachedBlock, this`dirty, cache, disk
      ensures ok ==>
                Valid() && 0 < n <= |bytes| && at + n <= Whole(disk.Length, blockSize) <= disk.Length
                && View() == Overlay(old(View()), at, bytes[..n])
      ensures !faulty && at < Whole(disk.Length, blockSize) ==> ok
    {
      hide View, Whole, Put;
      var block, offset, chunk := Locate(at, |bytes|);
      n := chunk;
      ok := CacheBlock(block);
      if ok {
        Patch(offset, bytes[..n]);
        OverlayIsPut(old(View()), at, bytes[..n]);
      }
    }

    /** One round of _device_write's loop, on top of what the rounds before wrote. */
    method WriteNext(data: seq<Byte>, loc: nat, progress: nat, ghost view: seq<Byte>) returns (ok: bool, progress': nat)
      requires Valid() && progress < |data| && |view| == disk.Length && (progress > 0 ==> loc + progress <= disk.Length)
      requires View() == Overlay(view, loc, data[..progress])
      modifies this`cachedBlock, this`dirty, cache, disk
      ensures ok ==>
                Valid() && progress < progress' <= |data|
                && loc + progress' <= Whole(disk.Length, blockSize) <= disk.Length
      ensures ok ==> View() == Overlay(view, loc, data[..progress'])
      ensures !faulty && loc + progress < Whole(disk.Length, blockSize) ==> ok
    {
      hide View, Whole, Overlay;
      var n;
      ok, n := WriteChunk(loc + progress, data[progress..]);
      progress' := progress + n;
      if ok {
        OverlayMore(view, loc, data, progress, n);
      }
    }

    /** _device_write */
    method Write(data: seq<Byte>, loc: nat) returns (ok: bool)
      requires Valid()
      modifies this`cachedBlock, this`dirty, cache, disk
      ensures ok ==> Valid() && Readable(loc, |data|) && (data != [] ==> loc + |data| <= disk.Length)
      ensures ok ==> View() == Overlay(old(View()), loc, data)
      ensures !faulty && Readable(loc, |data|) ==> ok
    {
      assert blockSize > 0;
      hide View, Whole, Valid, Overlay;
      var progress: nat, count := 0, |data|;
      ghost var view := View();
      OverlayNothing(view, loc, data[..0]);
      while progress < count
        invariant progress <= count && Valid() && blockSize > 0
        invariant progress > 0 ==> loc + progress <= Whole(disk.Length, blockSize) <= disk.Length
        invariant View() == Overlay(view, loc, data[..progress])
        decreases count - progress
      {
        ok, progress := WriteNext(data, loc, progress, view);
        if !ok {
          return;
        }
      }
      WholePrefix(data, progress);
      ok := true;
    }

    /** A run of reads and writes, then a flush: what each read returns, and what the disk holds in the end. */
    method Session(ops: seq<Op>) returns (ok: bool, results: seq<seq<Byte>>)
      requires Valid()
      modifies this`cachedBlock, this`dirty, cache, disk
      ensures ok ==>
                Valid() && results == Results(old(View()), ops) && disk[..] == After(old(View()), ops)
                && View() == disk[..]
      ensures !faulty && (forall i | 0 <= i < |ops| :: Readable(ops[i].loc, ops[i].Count())) ==> ok
    {
      assert blockSize > 0;
      hide View, Valid, Overlay, Whole;
      ghost var view := View();
      results := [];
      for i := 0 to |ops|
        invariant Valid() && blockSize > 0 && View() == After(view, ops[..i]) && results == Results(view, ops[..i])
      {
        assert ops[..i + 1][..i] == ops[..i];
        var result;
        ok, result := Perform(ops[i]);
        if !ok {
          return;
        }
        results := results + [result];
      }
      assert ops[..|ops|] == ops;
      ok := Flush();
    }

    method Perform(op: Op) returns (ok: bool, result: seq<Byte>)
      requires Valid()
      modifies this`cachedBlock, this`dirty, cache, disk
      ensures ok ==> Valid() && View() == Applied(old(View()), op) && result == Result(old(View()), op)
      ensures !faulty && Readable(op.loc, op.Count()) ==> ok
    {
      hide View, Whole;
      result := [];
      match op
      case Get(loc, count) =>
        ok, result := Read(loc, count);
      case Set(loc, data) =>
        ok := Write(data, loc);
    }
  }

  lemma WholePrefix(s: seq<Byte>, n: nat)
    requires n == |s|
    ensures s[..n] == s
  {
  }
}
